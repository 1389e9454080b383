/** The control panel's two copies of the set of connected devices: the map in the backend, and the list in
    the window, which only learns what the backend notifies it of. Both are compared with what the history
    of events says outright. */
module DeviceIndex {
  import opened Wrappers

  datatype Device = Device(id: string, address: string, connectionType: string, name: string, connectedAt: int)

  /** What the server sends. */
  datatype Event = Connected(client: Device) | Disconnected(id: string)

  /** What the backend tells the window. */
  datatype Notice = Joined(client: Device, alreadyPresent: bool) | Left(id: string, alreadyRemoved: bool)

  /** The backend's map. */
  type Devices = map<string, Device>

  function NoticeOf(devices: Devices, e: Event): Option<Notice> {
    match e
    case Connected(client) => Some(Joined(client, client.id in devices))
    case Disconnected(id) => if id in devices then Some(Left(id, false)) else None
  }

  function Updated(devices: Devices, e: Event): Devices {
    match e
    case Connected(client) => devices[client.id := client]
    case Disconnected(id) => devices - {id}
  }

  // ---------- the window's list ----------

  /** `prev.filter(c => c.id != id)` */
  function Without(list: seq<Device>, id: string): seq<Device> {
    if list == [] then []
    else if list[0].id != id then [list[0]] + Without(list[1..], id)
    else Without(list[1..], id)
  }

  function Shown(list: seq<Device>, notice: Option<Notice>): seq<Device> {
    match notice
    case None => list
    case Some(Joined(client, alreadyPresent)) => if alreadyPresent then list else list + [client]
    case Some(Left(id, alreadyRemoved)) => if alreadyRemoved then list else Without(list, id)
  }

  // ---------- both, over a history ----------

  function DevicesAfter(h: seq<Event>): Devices {
    if h == [] then map[] else Updated(DevicesAfter(h[..|h| - 1]), h[|h| - 1])
  }

  function ListAfter(h: seq<Event>): seq<Device> {
    if h == [] then []
    else Shown(ListAfter(h[..|h| - 1]), NoticeOf(DevicesAfter(h[..|h| - 1]), h[|h| - 1]))
  }

  // ---------- what the history says ----------

  predicate About(e: Event, id: string) {
    match e
    case Connected(client) => client.id == id
    case Disconnected(other) => other == id
  }

  /** Event `i` is the latest one about the device, and it connected it. */
  predicate LatestConnect(h: seq<Event>, i: int, id: string) {
    0 <= i < |h| && h[i].Connected? && h[i].client.id == id && forall j :: i < j < |h| ==> !About(h[j], id)
  }

  ghost predicate Present(h: seq<Event>, id: string) {
    exists i :: LatestConnect(h, i, id)
  }

  /** Event `i` brought in a device that was away, and it has not left since. */
  ghost predicate Opens(h: seq<Event>, i: int) {
    && 0 <= i < |h| && h[i].Connected? && !Present(h[..i], h[i].client.id)
    && forall j :: i < j < |h| ==> h[j] != Disconnected(h[i].client.id)
  }

  /** The devices brought in by the first `n` events and still there at the end, in that order. */
  ghost function Arrivals(h: seq<Event>, n: nat): seq<Device>
    requires n <= |h|
  {
    if n == 0 then []
    else Arrivals(h, n - 1) + if Opens(h, n - 1) then [h[n - 1].client] else []
  }

  predicate NoDuplicates(list: seq<Device>) {
    forall i, j :: 0 <= i < j < |list| ==> list[i].id != list[j].id
  }

  predicate Lists(list: seq<Device>, id: string) {
    exists i :: 0 <= i < |list| && list[i].id == id
  }

  // ---------- the list without one device ----------

  lemma {:induction false} WithoutAppend(a: seq<Device>, b: seq<Device>, id: string)
    ensures Without(a + b, id) == Without(a, id) + Without(b, id)
  {
    if a == [] {
      assert a + b == b;
    } else {
      assert (a + b)[1..] == a[1..] + b;
      WithoutAppend(a[1..], b, id);
    }
  }

  lemma {:induction false} WithoutLists(list: seq<Device>, id: string, other: string)
    ensures Lists(Without(list, id), other) <==> other != id && Lists(list, other)
  {
    if list != [] {
      var rest := Without(list[1..], id);
      WithoutLists(list[1..], id, other);
      assert Lists(list, other) <==> list[0].id == other || Lists(list[1..], other) by {
        if Lists(list, other) {
          var i :| 0 <= i < |list| && list[i].id == other;
          if i > 0 { assert list[1..][i - 1].id == other; }
        }
        if Lists(list[1..], other) {
          var i :| 0 <= i < |list[1..]| && list[1..][i].id == other;
          assert list[i + 1].id == other;
        }
      }
      if list[0].id != id {
        ConsLists(list[0], rest, other);
      }
    }
  }

  lemma ConsLists(d: Device, rest: seq<Device>, id: string)
    ensures Lists([d] + rest, id) <==> d.id == id || Lists(rest, id)
  {
    if Lists([d] + rest, id) && d.id != id {
      var i :| 0 <= i < |[d] + rest| && ([d] + rest)[i].id == id;
      assert rest[i - 1].id == id;
    }
    if Lists(rest, id) {
      var i :| 0 <= i < |rest| && rest[i].id == id;
      assert ([d] + rest)[i + 1].id == id;
    }
    if d.id == id { assert ([d] + rest)[0].id == id; }
  }

  // ---------- the map is the history's ----------

  lemma PresentStep(h: seq<Event>, e: Event, id: string)
    ensures Present(h + [e], id) <==> if About(e, id) then e.Connected? else Present(h, id)
  {
    var g := h + [e];
    assert g[|h|] == e;
    if About(e, id) {
      if e.Connected? { assert LatestConnect(g, |h|, id); }
    } else {
      if Present(h, id) {
        var i :| LatestConnect(h, i, id);
        assert LatestConnect(g, i, id);
      }
      if Present(g, id) {
        var i :| LatestConnect(g, i, id);
        forall j | i < j < |h| ensures !About(h[j], id) { assert g[j] == h[j]; }
        assert LatestConnect(h, i, id);
      }
    }
  }

  lemma Snoc(h: seq<Event>, e: Event)
    ensures DevicesAfter(h + [e]) == Updated(DevicesAfter(h), e)
    ensures ListAfter(h + [e]) == Shown(ListAfter(h), NoticeOf(DevicesAfter(h), e))
  {
    assert (h + [e])[..|h|] == h;
  }

  /** The map holds exactly the devices whose latest event connected them, as that event described them. */
  lemma {:induction false} MapIsTheHistory(h: seq<Event>, id: string)
    ensures id in DevicesAfter(h) <==> Present(h, id)
    ensures forall i :: LatestConnect(h, i, id) ==> id in DevicesAfter(h) && DevicesAfter(h)[id] == h[i].client
  {
    if h == [] {
      assert !Present(h, id);
    } else {
      var front, e := h[..|h| - 1], h[|h| - 1];
      assert h == front + [e];
      MapIsTheHistory(front, id);
      PresentStep(front, e, id);
      Snoc(front, e);
      forall i | LatestConnect(h, i, id) ensures id in DevicesAfter(h) && DevicesAfter(h)[id] == h[i].client {
        if i < |front| { assert LatestConnect(front, i, id); }
      }
    }
  }

  /** What the backend tells the window, by the history: that a device came in, and whether it was there
      already; and that one left, only if it was there. */
  lemma NoticesTell(h: seq<Event>, e: Event)
    ensures var notice := NoticeOf(DevicesAfter(h), e);
      && (e.Connected? ==>
            && notice.Some? && notice.value.Joined? && notice.value.client == e.client
            && (notice.value.alreadyPresent <==> Present(h, e.client.id)))
      && (e.Disconnected? ==>
            (notice.Some? <==> Present(h, e.id)) && (notice.Some? ==> notice.value == Left(e.id, false)))
  {
    MapIsTheHistory(h, if e.Connected? then e.client.id else e.id);
  }

  // ---------- the list and the map agree ----------

  lemma AppendLists(list: seq<Device>, d: Device, id: string)
    ensures Lists(list + [d], id) <==> Lists(list, id) || d.id == id
  {
    if Lists(list, id) {
      var i :| 0 <= i < |list| && list[i].id == id;
      assert (list + [d])[i].id == id;
    }
    if d.id == id { assert (list + [d])[|list|].id == id; }
    if Lists(list + [d], id) && d.id != id {
      var i :| 0 <= i < |list + [d]| && (list + [d])[i].id == id;
      assert list[i].id == id;
    }
  }

  /** The window lists a device exactly if the backend holds it, in every history. */
  lemma {:induction false} ListHasTheKeys(h: seq<Event>, id: string)
    ensures Lists(ListAfter(h), id) <==> id in DevicesAfter(h)
  {
    if h != [] {
      var front, e := h[..|h| - 1], h[|h| - 1];
      assert h == front + [e];
      ListHasTheKeys(front, id);
      Snoc(front, e);
      hide ListAfter, DevicesAfter, Lists;
      match e
      case Connected(client) => AppendLists(ListAfter(front), client, id);
      case Disconnected(other) => WithoutLists(ListAfter(front), other, id);
    }
  }

  lemma {:induction false} WithoutAbsent(list: seq<Device>, id: string)
    requires !Lists(list, id)
    ensures Without(list, id) == list
  {
    if list != [] {
      assert list[0].id != id;
      forall i | 0 <= i < |list[1..]| ensures list[1..][i].id != id { assert list[i + 1].id != id; }
      WithoutAbsent(list[1..], id);
    }
  }

  lemma {:induction false} WithoutKeepsNoDuplicates(list: seq<Device>, id: string)
    requires NoDuplicates(list)
    ensures NoDuplicates(Without(list, id))
  {
    if list != [] {
      var d, rest := list[0], Without(list[1..], id);
      WithoutKeepsNoDuplicates(list[1..], id);
      WithoutLists(list[1..], id, d.id);
      assert !Lists(list[1..], d.id);
      assert forall i :: 0 <= i < |rest| ==> rest[i].id != d.id;
    }
  }

  /** The window never lists a device twice, however the events come. */
  lemma {:induction false} NeverTwice(h: seq<Event>)
    ensures NoDuplicates(ListAfter(h))
  {
    if h != [] {
      var front, e := h[..|h| - 1], h[|h| - 1];
      assert h == front + [e];
      NeverTwice(front);
      Snoc(front, e);
      match e
      case Connected(client) =>
        ListHasTheKeys(front, client.id);
        var list := ListAfter(front);
        assert client.id !in DevicesAfter(front) ==> forall i :: 0 <= i < |list| ==> list[i].id != client.id;
      case Disconnected(other) => WithoutKeepsNoDuplicates(ListAfter(front), other);
    }
  }

  // ---------- the list is the history's ----------

  lemma OpensEarlier(h: seq<Event>, e: Event, i: int)
    requires 0 <= i < |h|
    ensures Opens(h + [e], i) <==> Opens(h, i) && e != Disconnected(h[i].client.id)
  {
    assert (h + [e])[..i] == h[..i];
    assert (h + [e])[|h|] == e;
    forall j | i < j < |h| ensures (h + [e])[j] == h[j] {}
  }

  lemma ArrivalsStep(h: seq<Event>, n: nat)
    requires 0 < n <= |h|
    ensures Arrivals(h, n) == Arrivals(h, n - 1) + if Opens(h, n - 1) then [h[n - 1].client] else []
  {
    hide Opens;
  }

  lemma {:induction false} ArrivalsKept(h: seq<Event>, e: Event, n: nat)
    requires n <= |h|
    ensures Arrivals(h + [e], n) == if e.Disconnected? then Without(Arrivals(h, n), e.id) else Arrivals(h, n)
  {
    if n > 0 {
      hide Opens;
      ArrivalsKept(h, e, n - 1);
      ArrivalsStep(h, n);
      ArrivalsStep(h + [e], n);
      hide Arrivals;
      OpensEarlierOrNot(h, e, n - 1);
      assert (h + [e])[n - 1] == h[n - 1];
      var last := if Opens(h, n - 1) then [h[n - 1].client] else [];
      if e.Disconnected? {
        WithoutAppend(Arrivals(h, n - 1), last, e.id);
        WithoutOne(last, e.id);
      }
    }
  }

  lemma WithoutOne(list: seq<Device>, id: string)
    requires |list| <= 1
    ensures Without(list, id) == if list != [] && list[0].id == id then [] else list
  {
    if list != [] {
      assert Without(list[1..], id) == [];
    }
  }

  lemma OpensEarlierOrNot(h: seq<Event>, e: Event, i: int)
    requires 0 <= i < |h|
    ensures Opens(h, i) ==> h[i].Connected?
    ensures Opens(h + [e], i) <==> Opens(h, i) && (e.Disconnected? ==> e.id != h[i].client.id)
  {
    if h[i].Connected? { OpensEarlier(h, e, i); }
  }

  /** Over every history the window shows exactly the devices that came in and have not left, in the order
      they came in, though it is only told of the changes. */
  lemma {:induction false} ListIsTheHistory(h: seq<Event>)
    ensures ListAfter(h) == Arrivals(h, |h|)
  {
    if h != [] {
      var front, e := h[..|h| - 1], h[|h| - 1];
      assert h == front + [e];
      ListIsTheHistory(front);
      Snoc(front, e);
      ArrivalsKept(front, e, |front|);
      MapIsTheHistory(front, if e.Connected? then e.client.id else e.id);
      assert h[..|front|] == front;
      if e.Disconnected? {
        ListHasTheKeys(front, e.id);
        if !Lists(ListAfter(front), e.id) { WithoutAbsent(ListAfter(front), e.id); }
      }
    }
  }

  // ---------- where they differ ----------

  /** What is listed and held is also described alike. */
  predicate Alike(list: seq<Device>, devices: Devices) {
    forall i :: 0 <= i < |list| ==> list[i].id in devices && devices[list[i].id] == list[i]
  }

  /** The two describe their devices alike after an event exactly if it did not connect a device anew, with
      other details, that was there already: the window keeps the first description, the backend the last. */
  lemma AlikeUntilAnnouncedAnew(h: seq<Event>, e: Event)
    requires Alike(ListAfter(h), DevicesAfter(h))
    ensures Alike(ListAfter(h + [e]), DevicesAfter(h + [e])) <==>
            !(e.Connected? && e.client.id in DevicesAfter(h) && DevicesAfter(h)[e.client.id] != e.client)
  {
    Snoc(h, e);
    var list, devices := ListAfter(h), DevicesAfter(h);
    hide ListAfter, DevicesAfter;
    match e
    case Connected(client) =>
      if client.id in devices {
        ListHasTheKeys(h, client.id);
        var i :| 0 <= i < |list| && list[i].id == client.id;
        assert devices[list[i].id] == list[i];
      }
    case Disconnected(id) =>
      ListHasTheKeys(h, id);
      if id in devices { WithoutAlike(list, devices, id); }
  }

  lemma {:induction false} WithoutAlike(list: seq<Device>, devices: Devices, id: string)
    requires Alike(list, devices)
    ensures Alike(Without(list, id), devices - {id})
  {
    if list != [] {
      forall i | 0 <= i < |list[1..]| ensures list[1..][i].id in devices && devices[list[1..][i].id] == list[1..][i] {
        assert list[i + 1].id in devices;
      }
      WithoutAlike(list[1..], devices, id);
    }
  }

  lemma {:induction false} ArrivalsOpen(h: seq<Event>, n: nat, d: Device)
    requires n <= |h|
    ensures d in Arrivals(h, n) <==> exists i :: i < n && Opens(h, i) && h[i].client == d
  {
    if n > 0 {
      hide Opens;
      ArrivalsOpen(h, n - 1, d);
      var last := if Opens(h, n - 1) then [h[n - 1].client] else [];
      assert d in Arrivals(h, n) <==> d in Arrivals(h, n - 1) || d in last;
      if d in last { assert Opens(h, n - 1) && h[n - 1].client == d; }
    }
  }

  /** Every device that is there was last announced as it was when it came. */
  ghost predicate LastAsFirst(h: seq<Event>) {
    forall i, j :: Opens(h, i) && LatestConnect(h, j, h[i].client.id) ==> h[i].client == h[j].client
  }

  /** Over whole histories: list and map describe their devices alike exactly if every device that is there
      was last announced as it was when it came. */
  lemma AlikeIffLastAsFirst(h: seq<Event>)
    ensures Alike(ListAfter(h), DevicesAfter(h)) <==> LastAsFirst(h)
  {
    var list, devices := ListAfter(h), DevicesAfter(h);
    ListIsTheHistory(h);
    hide ListAfter, DevicesAfter, Arrivals;
    if Alike(list, devices) {
      forall i, j | Opens(h, i) && LatestConnect(h, j, h[i].client.id) ensures h[i].client == h[j].client {
        ArrivalsOpen(h, |h|, h[i].client);
        var k :| 0 <= k < |list| && list[k] == h[i].client;
        MapIsTheHistory(h, h[i].client.id);
      }
    }
    if LastAsFirst(h) {
      forall k | 0 <= k < |list| ensures list[k].id in devices && devices[list[k].id] == list[k] {
        ArrivalsOpen(h, |h|, list[k]);
        var i :| i < |h| && Opens(h, i) && h[i].client == list[k];
        assert Lists(list, list[k].id);
        ListHasTheKeys(h, list[k].id);
        MapIsTheHistory(h, list[k].id);
        var j :| LatestConnect(h, j, list[k].id);
      }
    }
  }

  // ---------- after `getAllClients`, which empties the map and tells the window nothing ----------

  /** The window's list if it shows `list` when the map is emptied, and these events follow. */
  function ListFrom(list: seq<Device>, h: seq<Event>): seq<Device> {
    if h == [] then list
    else Shown(ListFrom(list, h[..|h| - 1]), NoticeOf(DevicesAfter(h[..|h| - 1]), h[|h| - 1]))
  }

  /** What is left of `list`: a device leaves only if the map has it again. */
  function Survivors(list: seq<Device>, h: seq<Event>): seq<Device> {
    if h == [] then list
    else
      var front, e := h[..|h| - 1], h[|h| - 1];
      if e.Disconnected? && e.id in DevicesAfter(front) then Without(Survivors(list, front), e.id)
      else Survivors(list, front)
  }

  lemma {:induction false} SurvivorsComeFirst(list: seq<Device>, h: seq<Event>)
    ensures ListFrom(list, h) == Survivors(list, h) + ListAfter(h)
  {
    if h != [] {
      var front, e := h[..|h| - 1], h[|h| - 1];
      SurvivorsComeFirst(list, front);
      hide DevicesAfter;
      if e.Disconnected? { WithoutAppend(Survivors(list, front), ListAfter(front), e.id); }
    }
  }

  /** In the events so far the device did not leave while it was there. */
  ghost predicate NeverLeft(h: seq<Event>, id: string) {
    forall k :: 0 <= k < |h| && h[k] == Disconnected(id) ==> !Present(h[..k], id)
  }

  lemma NeverLeftStep(h: seq<Event>, e: Event, id: string)
    ensures NeverLeft(h + [e], id) <==> NeverLeft(h, id) && !(e == Disconnected(id) && Present(h, id))
  {
    hide Present;
    var g := h + [e];
    assert g[..|h|] == h && g[|h|] == e;
    assert forall k | 0 <= k < |h| :: g[..k] == h[..k] && g[k] == h[k];
  }

  lemma {:induction false} SurvivesIffNeverLeft(list: seq<Device>, h: seq<Event>, id: string)
    ensures Lists(Survivors(list, h), id) <==> Lists(list, id) && NeverLeft(h, id)
  {
    if h != [] {
      hide Lists, NeverLeft, DevicesAfter, Present;
      var front, e := h[..|h| - 1], h[|h| - 1];
      assert h == front + [e];
      SurvivesIffNeverLeft(list, front, id);
      NeverLeftStep(front, e, id);
      if e.Disconnected? {
        WithoutLists(Survivors(list, front), e.id, id);
        MapIsTheHistory(front, e.id);
      }
    } else {
      assert NeverLeft(h, id);
    }
  }

  lemma {:induction false} SurvivorsOnce(list: seq<Device>, h: seq<Event>)
    requires NoDuplicates(list)
    ensures NoDuplicates(Survivors(list, h))
  {
    if h != [] {
      SurvivorsOnce(list, h[..|h| - 1]);
      if h[|h| - 1].Disconnected? { WithoutKeepsNoDuplicates(Survivors(list, h[..|h| - 1]), h[|h| - 1].id); }
    }
  }

  lemma NoDuplicatesInBoth(a: seq<Device>, b: seq<Device>)
    requires NoDuplicates(a) && NoDuplicates(b)
    ensures NoDuplicates(a + b) <==> forall id :: !(Lists(a, id) && Lists(b, id))
  {
    if id :| Lists(a, id) && Lists(b, id) {
      var i :| 0 <= i < |a| && a[i].id == id;
      var j :| 0 <= j < |b| && b[j].id == id;
      assert (a + b)[i].id == (a + b)[|a| + j].id;
    } else {
      forall i, j | 0 <= i < |a| && 0 <= j < |b| ensures a[i].id != b[j].id {
        assert Lists(a, a[i].id) && Lists(b, b[j].id);
      }
    }
  }

  /** `getAllClients` after the events `g`, then the events `h`: the window lists a device twice exactly if some
      device that it listed is there again and has not left since while it was there. */
  lemma ListedTwiceAfterClear(g: seq<Event>, h: seq<Event>)
    ensures NoDuplicates(ListFrom(ListAfter(g), h)) <==>
            forall id :: !(Present(g, id) && Present(h, id) && NeverLeft(h, id))
  {
    var list := ListAfter(g);
    NeverTwice(g);
    NeverTwice(h);
    SurvivorsComeFirst(list, h);
    SurvivorsOnce(list, h);
    NoDuplicatesInBoth(Survivors(list, h), ListAfter(h));
    hide NoDuplicates, Present, NeverLeft, ListAfter, ListFrom, Survivors, Lists, DevicesAfter;
    forall id ensures Lists(Survivors(list, h), id) && Lists(ListAfter(h), id) <==>
                      Present(g, id) && Present(h, id) && NeverLeft(h, id)
    {
      SurvivesIffNeverLeft(list, h, id);
      ListHasTheKeys(g, id);
      ListHasTheKeys(h, id);
      MapIsTheHistory(g, id);
      MapIsTheHistory(h, id);
    }
  }
}
