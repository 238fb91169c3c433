// daemon/router.py: the switch table of nodes, segments, jetties and memory pools.
module Router {
  import opened Bytes

  datatype Segment = Segment(segmentId: int, nodeId: int, base: int, size: int, token: int, permissions: string)

  datatype Jetty = Jetty(localNode: int, localId: int, remoteNode: int, remoteId: int, token: int)

  datatype Table = Table(segments: map<int, map<int, Segment>>, jetties: map<(int, int), Jetty>,
                         pools: map<int, Segment>, nextPool: int)

  const EMPTY_TABLE: Table := Table(map[], map[], map[], 1)

  datatype Event =
    | RegNode(node: int)
    | UnregNode(node: int)
    | RegSeg(node: int, seg: int, base: int, size: int, token: int, permissions: string)
    | UnregSeg(node: int, seg: int)
    | NewJetty(node: int, jetty: int, remoteNode: int, remoteJetty: int, token: int)
    | Export(node: int, size: int, token: int, permissions: string)

  /** str.upper on ASCII text. */
  function Upper(s: string): (r: string)
    ensures |r| == |s|
  {
    seq(|s|, i requires 0 <= i < |s| => if 'a' <= s[i] <= 'z' then s[i] - 'a' + 'A' else s[i])
  }

  function MakeSegment(seg: int, node: int, base: int, size: int, token: int, permissions: string): (r: Segment)
    ensures r.segmentId == seg && r.nodeId == node
  {
    Segment(seg, node, base, size, token, Upper(permissions))
  }

  function SegmentsOf(t: Table, node: int): map<int, Segment>
  {
    if node in t.segments then t.segments[node] else map[]
  }

  predicate Involves(k: (int, int), j: Jetty, node: int)
  {
    k.0 == node || j.remoteNode == node
  }

  function Store(t: Table, s: Segment): Table
  {
    t.(segments := t.segments[s.nodeId := SegmentsOf(t, s.nodeId)[s.segmentId := s]])
  }

  function Apply(t: Table, e: Event): Table
  {
    match e
    case RegNode(n) => if n in t.segments then t else t.(segments := t.segments[n := map[]])
    case UnregNode(n) =>
      t.(segments := t.segments - {n},
         jetties := map k | k in t.jetties && !Involves(k, t.jetties[k], n) :: t.jetties[k])
    case RegSeg(n, s, base, size, token, perm) => Store(t, MakeSegment(s, n, base, size, token, perm))
    case UnregSeg(n, s) =>
      if n in t.segments && s in t.segments[n] then t.(segments := t.segments[n := t.segments[n] - {s}]) else t
    case NewJetty(n, j, rn, rj, token) => t.(jetties := t.jetties[(n, j) := Jetty(n, j, rn, rj, token)])
    case Export(n, size, token, perm) =>
      var s := MakeSegment(t.nextPool, n, 0, size, token, perm);
      Store(t, s).(pools := t.pools[t.nextPool := s], nextPool := t.nextPool + 1)
  }

  function RunEvents(h: seq<Event>): Table
  {
    if h == [] then EMPTY_TABLE else Apply(RunEvents(h[..|h| - 1]), h[|h| - 1])
  }

  function Entry(t: Table, node: int, seg: int): Option<Segment>
  {
    if node in t.segments && seg in t.segments[node] then Some(t.segments[node][seg]) else None
  }

  // ---------- access checks ----------

  predicate Contains(s: Segment, offset: int, length: int)
  {
    0 <= offset && offset + length <= s.size
  }

  predicate Permits(s: Segment, isWrite: bool, token: int)
  {
    && (s.token == 0 || s.token == token)
    && (isWrite ==> 'W' in s.permissions)
    && (!isWrite ==> 'R' in s.permissions)
  }

  datatype Access = Granted | NodeUnknown | SegmentUnknown | OutOfBounds | PermissionDenied

  function ValidateAccess(t: Table, node: int, seg: int, offset: int, length: int, isWrite: bool, token: int): Access
  {
    if node !in t.segments then NodeUnknown
    else if seg !in t.segments[node] then SegmentUnknown
    else if !Contains(t.segments[node][seg], offset, length) then OutOfBounds
    else if !Permits(t.segments[node][seg], isWrite, token) then PermissionDenied
    else Granted
  }

  function ImportPool(t: Table, pool: int, token: int): Option<Segment>
  {
    if pool !in t.pools then None
    else if t.pools[pool].token != 0 && t.pools[pool].token != token then None
    else Some(t.pools[pool])
  }

  // ---------- the object ----------

  class UBMMSwitch {
    var segments: map<int, map<int, Segment>>
    var jetties: map<(int, int), Jetty>
    var memoryPools: map<int, Segment>
    var nextPoolId: int

    function State(): Table
      reads this
    {
      Table(segments, jetties, memoryPools, nextPoolId)
    }

    constructor ()
      ensures State() == EMPTY_TABLE
    {
      segments, jetties, memoryPools, nextPoolId := map[], map[], map[], 1;
    }

    method RegisterNode(node: int)
      modifies this`segments
      ensures State() == Apply(old(State()), RegNode(node))
    {
      if node !in segments {
        segments := segments[node := map[]];
      }
    }

    method UnregisterNode(node: int)
      modifies this`segments, this`jetties
      ensures State() == Apply(old(State()), UnregNode(node))
    {
      if node in segments {
        segments := segments - {node};
      }
      assert segments == old(segments) - {node};
      var toDel := set k | k in jetties && Involves(k, jetties[k], node);
      while toDel != {}
        invariant segments == old(segments) - {node}
        invariant toDel <= jetties.Keys
        invariant forall k :: k in toDel ==> Involves(k, jetties[k], node)
        invariant forall k :: k in jetties ==> k in old(jetties) && jetties[k] == old(jetties)[k]
        invariant forall k :: k in old(jetties) && k !in jetties ==> Involves(k, old(jetties)[k], node)
        invariant forall k :: k in jetties && Involves(k, jetties[k], node) ==> k in toDel
        decreases |toDel|
      {
        var k :| k in toDel;
        jetties := jetties - {k};
        toDel := toDel - {k};
      }
      ghost var target := Apply(old(State()), UnregNode(node)).jetties;
      assert jetties.Keys == target.Keys;
      assert forall k :: k in jetties ==> jetties[k] == target[k];
      assert jetties == target;
    }

    method RegisterSegment(node: int, seg: int, base: int, size: int, token: int, permissions: string)
      returns (s: Segment)
      modifies this`segments
      ensures s == MakeSegment(seg, node, base, size, token, permissions)
      ensures State() == Apply(old(State()), RegSeg(node, seg, base, size, token, permissions))
    {
      RegisterNode(node);
      s := MakeSegment(seg, node, base, size, token, permissions);
      segments := segments[node := segments[node][seg := s]];
    }

    method UnregisterSegment(node: int, seg: int)
      modifies this`segments
      ensures State() == Apply(old(State()), UnregSeg(node, seg))
    {
      if node in segments && seg in segments[node] {
        segments := segments[node := segments[node] - {seg}];
      }
    }

    method CreateJetty(node: int, jetty: int, remoteNode: int, remoteJetty: int, token: int) returns (j: Jetty)
      modifies this`jetties
      ensures j == Jetty(node, jetty, remoteNode, remoteJetty, token)
      ensures State() == Apply(old(State()), NewJetty(node, jetty, remoteNode, remoteJetty, token))
    {
      j := Jetty(node, jetty, remoteNode, remoteJetty, token);
      jetties := jetties[(node, jetty) := j];
    }

    method ExportMemoryPool(node: int, size: int, token: int, permissions: string) returns (pool: int)
      modifies this`segments, this`memoryPools, this`nextPoolId
      ensures pool == old(nextPoolId)
      ensures State() == Apply(old(State()), Export(node, size, token, permissions))
    {
      pool := nextPoolId;
      nextPoolId := nextPoolId + 1;
      var s := RegisterSegment(node, pool, 0, size, token, permissions);
      memoryPools := memoryPools[pool := s];
    }
  }

  // ---------- the table as a function of its history ----------

  function Exports(h: seq<Event>): nat
  {
    if h == [] then 0 else Exports(h[..|h| - 1]) + if h[|h| - 1].Export? then 1 else 0
  }

  /** The record an event stores under (node, seg), if it stores one; an export takes the next
      pool number as its segment number. */
  function StoredBy(e: Event, nextPool: int, node: int, seg: int): Option<Segment>
  {
    match e
    case RegSeg(n, s, base, size, token, perm) =>
      if n == node && s == seg then Some(MakeSegment(s, n, base, size, token, perm)) else None
    case Export(n, size, token, perm) =>
      if n == node && nextPool == seg then Some(MakeSegment(seg, n, 0, size, token, perm)) else None
    case _ => None
  }

  function Stored(h: seq<Event>, i: nat, node: int, seg: int): Option<Segment>
    requires i < |h|
  {
    StoredBy(h[i], 1 + Exports(h[..i]), node, seg)
  }

  predicate Drops(e: Event, node: int, seg: int)
  {
    e == UnregNode(node) || e == UnregSeg(node, seg)
  }

  predicate Concerns(h: seq<Event>, i: nat, node: int, seg: int)
    requires i < |h|
  {
    Stored(h, i, node, seg).Some? || Drops(h[i], node, seg)
  }

  /** Event i is the last one about (node, seg). */
  ghost predicate IsLatest(h: seq<Event>, i: nat, node: int, seg: int)
  {
    i < |h| && Concerns(h, i, node, seg) && forall j :: i < j < |h| ==> !Concerns(h, j, node, seg)
  }

  lemma {:induction false} ExportsPrefix(h: seq<Event>, i: nat, k: nat)
    requires i <= k <= |h|
    ensures Exports(h[..i]) <= Exports(h[..k])
    ensures h[..k][..i] == h[..i]
    decreases k
  {
    if i < k {
      assert h[..k][..k - 1] == h[..k - 1];
      ExportsPrefix(h, i, k - 1);
    }
  }

  lemma StoredPrefix(h: seq<Event>, i: nat, k: nat, node: int, seg: int)
    requires i < k <= |h|
    ensures Stored(h[..k], i, node, seg) == Stored(h, i, node, seg)
  {
    assert h[..k][..i] == h[..i];
  }

  lemma {:induction false} NextPoolCounts(h: seq<Event>)
    ensures RunEvents(h).nextPool == 1 + Exports(h)
  {
    if h != [] { NextPoolCounts(h[..|h| - 1]); }
  }

  lemma EntryAfter(t: Table, e: Event, node: int, seg: int)
    ensures Entry(Apply(t, e), node, seg) ==
      if StoredBy(e, t.nextPool, node, seg).Some? then StoredBy(e, t.nextPool, node, seg)
      else if Drops(e, node, seg) then None
      else Entry(t, node, seg)
  {
    hide MakeSegment;
  }

  lemma LastStep(h: seq<Event>, node: int, seg: int)
    requires h != []
    ensures var last := |h| - 1;
      Entry(RunEvents(h), node, seg) ==
      if Concerns(h, last, node, seg) then Stored(h, last, node, seg) else Entry(RunEvents(h[..last]), node, seg)
  {
    hide StoredBy, Entry, Apply;
    NextPoolCounts(h[..|h| - 1]);
    EntryAfter(RunEvents(h[..|h| - 1]), h[|h| - 1], node, seg);
    if Drops(h[|h| - 1], node, seg) { DropsStoresNothing(h[|h| - 1], 1 + Exports(h[..|h| - 1]), node, seg); }
  }

  lemma DropsStoresNothing(e: Event, nextPool: int, node: int, seg: int)
    requires Drops(e, node, seg)
    ensures StoredBy(e, nextPool, node, seg) == None
  {
  }

  /** An entry exists exactly when the latest event about it stores one, and it is that record. */
  lemma {:induction false} EntryIsLatest(h: seq<Event>, node: int, seg: int, r: Segment)
    ensures Entry(RunEvents(h), node, seg) == Some(r)
      <==> exists i: nat :: IsLatest(h, i, node, seg) && Stored(h, i, node, seg) == Some(r)
  {
    hide MakeSegment, Apply;
    if h != [] {
      var last := |h| - 1;
      var g := h[..last];
      LastStep(h, node, seg);
      if Concerns(h, last, node, seg) {
        assert IsLatest(h, last, node, seg);
      } else {
        EntryIsLatest(g, node, seg, r);
        forall i: nat | i < last
          ensures Concerns(g, i, node, seg) == Concerns(h, i, node, seg)
          ensures Stored(g, i, node, seg) == Stored(h, i, node, seg)
        {
          StoredPrefix(h, i, last, node, seg);
        }
        forall i: nat
          ensures IsLatest(g, i, node, seg) <==> IsLatest(h, i, node, seg)
        {
          if IsLatest(g, i, node, seg) {
            assert forall j :: i < j < last ==> !Concerns(g, j, node, seg);
          }
        }
      }
    }
  }

  /** Every stored key matches the ids inside its record. */
  lemma KeysMatchRecords(h: seq<Event>, node: int, seg: int)
    requires Entry(RunEvents(h), node, seg).Some?
    ensures var r := Entry(RunEvents(h), node, seg).value;
      r.nodeId == node && r.segmentId == seg
  {
    var r := Entry(RunEvents(h), node, seg).value;
    EntryIsLatest(h, node, seg, r);
  }

  predicate Attaches(e: Event, node: int)
  {
    (e.RegNode? || e.RegSeg? || e.Export?) && e.node == node
  }

  /** A node is known exactly when something registered it and it was not unregistered since. */
  lemma {:induction false} NodeIsAttached(h: seq<Event>, node: int)
    ensures node in RunEvents(h).segments
      <==> exists i :: 0 <= i < |h| && Attaches(h[i], node) && forall j :: i < j < |h| ==> h[j] != UnregNode(node)
  {
    if h != [] {
      var last := |h| - 1;
      var g := h[..last];
      NodeIsAttached(g, node);
      assert forall i :: 0 <= i < last ==> g[i] == h[i];
    }
  }

  // ---------- access, from the fields of the event ----------

  lemma UpperHas(s: string)
    ensures forall i :: 0 <= i < |s| ==>
      Upper(s)[i] as int == if 97 <= s[i] as int <= 122 then s[i] as int - 32 else s[i] as int
    ensures 'W' in Upper(s) <==> 'W' in s || 'w' in s
    ensures 'R' in Upper(s) <==> 'R' in s || 'r' in s
  {
    var u := Upper(s);
    assert forall i :: 0 <= i < |s| ==> (u[i] == 'W' <==> s[i] == 'W' || s[i] == 'w');
    assert forall i :: 0 <= i < |s| ==> (u[i] == 'R' <==> s[i] == 'R' || s[i] == 'r');
    if 'w' in s {
      var i :| 0 <= i < |s| && s[i] == 'w';
      assert u[i] == 'W';
    }
    if 'r' in s {
      var i :| 0 <= i < |s| && s[i] == 'r';
      assert u[i] == 'R';
    }
    if 'W' in s {
      var i :| 0 <= i < |s| && s[i] == 'W';
      assert u[i] == 'W';
    }
    if 'R' in s {
      var i :| 0 <= i < |s| && s[i] == 'R';
      assert u[i] == 'R';
    }
  }

  predicate Reaches(size: int, offset: int, length: int)
  {
    0 <= offset && offset + length <= size
  }

  /** A text allows a write if it has a W in it, a read if it has an R, in either case. */
  predicate Lets(permissions: string, isWrite: bool)
  {
    if isWrite then 'W' in permissions || 'w' in permissions else 'R' in permissions || 'r' in permissions
  }

  predicate KeyFits(own: int, token: int)
  {
    own == 0 || own == token
  }

  /** The answer for a stored record, from what it was made of. */
  lemma RecordAccess(t: Table, node: int, seg: int, base: int, size: int, own: int, permissions: string,
                     offset: int, length: int, isWrite: bool, token: int)
    requires Entry(t, node, seg) == Some(Segment(seg, node, base, size, own, Upper(permissions)))
    ensures ValidateAccess(t, node, seg, offset, length, isWrite, token) ==
      if !Reaches(size, offset, length) then OutOfBounds
      else if KeyFits(own, token) && Lets(permissions, isWrite) then Granted
      else PermissionDenied
  {
    hide Upper;
    UpperHas(permissions);
  }

  /** The latest event about (node, seg) is a registration or an export. */
  ghost predicate LatestStore(h: seq<Event>, i: nat, node: int, seg: int)
  {
    IsLatest(h, i, node, seg) && (h[i].RegSeg? || h[i].Export?)
  }

  lemma LatestRecord(h: seq<Event>, i: nat, node: int, seg: int)
    requires LatestStore(h, i, node, seg)
    ensures var base := if h[i].RegSeg? then h[i].base else 0;
      Entry(RunEvents(h), node, seg)
        == Some(Segment(seg, node, base, h[i].size, h[i].token, Upper(h[i].permissions)))
  {
    hide RunEvents, Entry, Upper;
    assert Stored(h, i, node, seg).Some?;
    EntryIsLatest(h, node, seg, Stored(h, i, node, seg).value);
  }

  /** The answer to an access, from the fields of the latest event about the segment. */
  lemma AccessExact(h: seq<Event>, node: int, seg: int, offset: int, length: int, isWrite: bool, token: int)
    ensures ValidateAccess(RunEvents(h), node, seg, offset, length, isWrite, token) == Granted
      <==> exists i: nat :: LatestStore(h, i, node, seg) && Reaches(h[i].size, offset, length)
             && KeyFits(h[i].token, token) && Lets(h[i].permissions, isWrite)
    ensures ValidateAccess(RunEvents(h), node, seg, offset, length, isWrite, token) == OutOfBounds
      <==> exists i: nat :: LatestStore(h, i, node, seg) && !Reaches(h[i].size, offset, length)
    ensures ValidateAccess(RunEvents(h), node, seg, offset, length, isWrite, token) == PermissionDenied
      <==> exists i: nat :: LatestStore(h, i, node, seg) && Reaches(h[i].size, offset, length)
             && !(KeyFits(h[i].token, token) && Lets(h[i].permissions, isWrite))
    ensures ValidateAccess(RunEvents(h), node, seg, offset, length, isWrite, token) == NodeUnknown
      <==> !exists i :: 0 <= i < |h| && Attaches(h[i], node) && forall j :: i < j < |h| ==> h[j] != UnregNode(node)
  {
    hide MakeSegment, Concerns, Stored, RunEvents, Reaches, KeyFits, Lets, Attaches;
    var t := RunEvents(h);
    NodeIsAttached(h, node);
    forall i: nat | LatestStore(h, i, node, seg)
      ensures ValidateAccess(t, node, seg, offset, length, isWrite, token) ==
        if !Reaches(h[i].size, offset, length) then OutOfBounds
        else if KeyFits(h[i].token, token) && Lets(h[i].permissions, isWrite) then Granted
        else PermissionDenied
    {
      LatestRecord(h, i, node, seg);
      RecordAccess(t, node, seg, if h[i].RegSeg? then h[i].base else 0, h[i].size, h[i].token, h[i].permissions,
                   offset, length, isWrite, token);
    }
    if Entry(t, node, seg).Some? {
      EntryIsLatest(h, node, seg, Entry(t, node, seg).value);
      var i: nat :| IsLatest(h, i, node, seg) && Stored(h, i, node, seg) == Entry(t, node, seg);
      StoringEvents(h, i, node, seg);
      assert LatestStore(h, i, node, seg);
    }
  }

  lemma StoringEvents(h: seq<Event>, i: nat, node: int, seg: int)
    ensures IsLatest(h, i, node, seg) ==> i < |h|
    ensures i < |h| && Stored(h, i, node, seg).Some? ==> h[i].RegSeg? || h[i].Export?
  {
  }

  // ---------- jetties ----------

  predicate Creates(e: Event, k: (int, int))
  {
    e.NewJetty? && (e.node, e.jetty) == k
  }

  /** Event i created the jetty under k, and none since recreated it or removed one of its ends. */
  ghost predicate JettyLive(h: seq<Event>, i: nat, k: (int, int))
  {
    && i < |h| && Creates(h[i], k)
    && forall j :: i < j < |h| ==>
      !Creates(h[j], k) && h[j] != UnregNode(k.0) && h[j] != UnregNode(h[i].remoteNode)
  }

  /** A jetty exists exactly when it was created and neither end was unregistered since. */
  lemma {:induction false} JettyIsLive(h: seq<Event>, k: (int, int), r: Jetty)
    ensures k in RunEvents(h).jetties && RunEvents(h).jetties[k] == r
      <==> exists i: nat :: JettyLive(h, i, k)
             && r == Jetty(k.0, k.1, h[i].remoteNode, h[i].remoteJetty, h[i].token)
  {
    if h != [] {
      var last := |h| - 1;
      var g := h[..last];
      var e := h[last];
      if Creates(e, k) {
        assert JettyLive(h, last, k);
      } else {
        JettyIsLive(g, k, r);
        forall i: nat
          ensures JettyLive(h, i, k)
            <==> JettyLive(g, i, k) && e != UnregNode(k.0) && e != UnregNode(g[i].remoteNode)
        {
          if JettyLive(h, i, k) {
            assert i < last && h[i] == g[i] && !(e == UnregNode(k.0));
            assert forall j :: i < j < last ==> g[j] == h[j];
          } else if JettyLive(g, i, k) {
            assert h[i] == g[i];
            assert forall j :: i < j < last ==> g[j] == h[j];
          }
        }
        forall i: nat | JettyLive(g, i, k)
          ensures k in RunEvents(g).jetties ==> RunEvents(g).jetties[k].remoteNode == g[i].remoteNode
          ensures k in RunEvents(g).jetties
        {
          JettyIsLive(g, k, Jetty(k.0, k.1, g[i].remoteNode, g[i].remoteJetty, g[i].token));
        }
      }
    }
  }

  // ---------- pools ----------

  /** Event i exported a pool, which received this number and this record. */
  predicate ExportedAs(h: seq<Event>, i: nat, pool: int, r: Segment)
  {
    && i < |h| && h[i].Export? && pool == 1 + Exports(h[..i])
    && r == Segment(pool, h[i].node, 0, h[i].size, h[i].token, Upper(h[i].permissions))
  }

  lemma ExportedEarlier(h: seq<Event>, i: nat, pool: int, r: Segment)
    requires h != [] && i < |h| - 1
    ensures ExportedAs(h[..|h| - 1], i, pool, r) <==> ExportedAs(h, i, pool, r)
    ensures ExportedAs(h, i, pool, r) ==> 1 <= pool < 1 + Exports(h[..|h| - 1])
  {
    hide MakeSegment;
    var last := |h| - 1;
    assert h[..last][..i] == h[..i] && h[..i + 1][..i] == h[..i];
    ExportsPrefix(h, i + 1, last);
  }

  /** Pool numbers are handed out once each, 1, 2, 3, ..., and a pool record never leaves the pool
      table: it is the record of the export that received the number, whatever happened since. */
  lemma {:induction false} PoolsAreExports(h: seq<Event>, pool: int, r: Segment)
    ensures pool in RunEvents(h).pools && RunEvents(h).pools[pool] == r <==> exists i: nat :: ExportedAs(h, i, pool, r)
  {
    hide MakeSegment, ExportedAs;
    if h != [] {
      var last := |h| - 1;
      PoolsAreExports(h[..last], pool, r);
      forall i: nat | i < last
        ensures ExportedAs(h[..last], i, pool, r) <==> ExportedAs(h, i, pool, r)
        ensures ExportedAs(h, i, pool, r) ==> 1 <= pool < 1 + Exports(h[..last])
      {
        ExportedEarlier(h, i, pool, r);
      }
      forall i: nat | i >= last
        ensures !ExportedAs(h[..last], i, pool, r)
        ensures ExportedAs(h, i, pool, r) ==> i == last
      {
        ExportedInside(h[..last], i, pool, r);
        ExportedInside(h, i, pool, r);
      }
      LastPool(h, pool, r);
    } else {
      forall i: nat
        ensures !ExportedAs(h, i, pool, r)
      {
        ExportedInside(h, i, pool, r);
      }
    }
  }

  lemma ExportedInside(h: seq<Event>, i: nat, pool: int, r: Segment)
    ensures ExportedAs(h, i, pool, r) ==> i < |h|
  {
  }

  /** What the last event does to the pools. */
  lemma LastPool(h: seq<Event>, pool: int, r: Segment)
    requires h != []
    ensures var last := |h| - 1;
      var before := RunEvents(h[..last]).pools;
      (pool in RunEvents(h).pools && RunEvents(h).pools[pool] == r) <==>
        ExportedAs(h, last, pool, r) ||
        (pool in before && before[pool] == r && !(h[last].Export? && pool == 1 + Exports(h[..last])))
  {
    hide Upper, Apply;
    NextPoolCounts(h[..|h| - 1]);
    PoolsAfter(RunEvents(h[..|h| - 1]), h[|h| - 1]);
  }

  lemma PoolsAfter(t: Table, e: Event)
    ensures Apply(t, e).pools == if e.Export?
      then t.pools[t.nextPool := MakeSegment(t.nextPool, e.node, 0, e.size, e.token, e.permissions)] else t.pools
  {
    hide MakeSegment;
  }

  lemma ExportIsFresh(h: seq<Event>)
    ensures RunEvents(h).nextPool !in RunEvents(h).pools
    ensures forall p :: p in RunEvents(h).pools ==> 1 <= p < RunEvents(h).nextPool
  {
    hide MakeSegment, RunEvents;
    NextPoolCounts(h);
    forall p | p in RunEvents(h).pools
      ensures 1 <= p < RunEvents(h).nextPool
    {
      PoolsAreExports(h, p, RunEvents(h).pools[p]);
      var i: nat :| ExportedAs(h, i, p, RunEvents(h).pools[p]);
      ExportsPrefix(h, i + 1, |h|);
      assert h[..i + 1][..i] == h[..i] && h[..|h|] == h;
    }
  }

  /** Importing a pool and reaching its memory are different. An import is granted for good, by the token alone,
      and gives the record of the export that received the number ... */
  lemma ImportExact(h: seq<Event>, pool: int, token: int, r: Segment)
    ensures ImportPool(RunEvents(h), pool, token) == Some(r)
      <==> exists i: nat :: ExportedAs(h, i, pool, r) && KeyFits(h[i].token, token)
  {
    hide RunEvents, Upper;
    PoolsAreExports(h, pool, r);
    forall i: nat | ExportedAs(h, i, pool, r)
      ensures r.token == h[i].token
    {
    }
  }

  /** ... while the segment entry under the pool's number is the pool record exactly if the latest event about
      it stored that very record: the export, or a registration that happens to equal it. */
  lemma PoolReachableIff(h: seq<Event>, i: nat)
    requires i < |h| && h[i].Export?
    ensures var p := 1 + Exports(h[..i]);
      && p in RunEvents(h).pools
      && (Entry(RunEvents(h), h[i].node, p) == Some(RunEvents(h).pools[p]) <==>
          exists j: nat :: IsLatest(h, j, h[i].node, p) && Stored(h, j, h[i].node, p) == Stored(h, i, h[i].node, p))
  {
    hide Upper, Stored, RunEvents, Entry, IsLatest;
    var p := 1 + Exports(h[..i]);
    var r := MakeSegment(p, h[i].node, 0, h[i].size, h[i].token, h[i].permissions);
    assert ExportedAs(h, i, p, r);
    PoolsAreExports(h, p, r);
    ExportStores(h, i);
    EntryIsLatest(h, h[i].node, p, r);
  }

  lemma ExportStores(h: seq<Event>, i: nat)
    requires i < |h| && h[i].Export?
    ensures var p := 1 + Exports(h[..i]);
      Stored(h, i, h[i].node, p) == Some(MakeSegment(p, h[i].node, 0, h[i].size, h[i].token, h[i].permissions))
  {
  }

  /** After the owner has gone, or has registered a segment of the same number, the import succeeds although
      the memory is unknown, or is another segment. */
  lemma PoolOutlivesSegment()
    ensures var h := [Export(1, 4096, 7, "RW"), UnregNode(1)];
      && ImportPool(RunEvents(h), 1, 7).Some?
      && ValidateAccess(RunEvents(h), 1, 1, 0, 8, false, 7) == NodeUnknown
    ensures var h := [Export(1, 4096, 7, "RW"), RegSeg(1, 1, 0, 16, 9, "RO")];
      && ImportPool(RunEvents(h), 1, 7).Some?
      && ValidateAccess(RunEvents(h), 1, 1, 0, 8, false, 7) == PermissionDenied
  {
    var h := [Export(1, 4096, 7, "RW"), UnregNode(1)];
    assert h[..1] == [Export(1, 4096, 7, "RW")] && h[..1][..0] == [];
    assert RunEvents(h[..1]).pools == map[1 := MakeSegment(1, 1, 0, 4096, 7, "RW")];
    var g := [Export(1, 4096, 7, "RW"), RegSeg(1, 1, 0, 16, 9, "RO")];
    assert g[..1] == [Export(1, 4096, 7, "RW")] && g[..1][..0] == [];
    assert RunEvents(g[..1]).pools == map[1 := MakeSegment(1, 1, 0, 4096, 7, "RW")];
  }
}
