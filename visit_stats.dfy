/** The statistics endpoint: grouping stored visits by session, counting them and ordering the groups. */
module VisitStats {
  import opened JsValues
  import opened Geolocation
  import opened Visits

  /** One entry of the `sessions` list: a session's visits with their count and time span. */
  datatype SessionGroup = SessionGroup(
    sessionId: Option<string>,
    ip: string,
    visits: seq<Visit>,
    geolocation: GeoRecord,
    totalVisits: nat,
    firstVisit: int,
    lastVisit: int)

  /** The endpoint's answer. */
  datatype Stats = Stats(totalRecords: nat, uniqueSessions: nat, sessions: seq<SessionGroup>)

  const LegacyPrefix: string := "legacy-"

  /** The grouping key: the session id, or `legacy-` and the address for a record without one. */
  function SessionKey(v: Visit): (k: string)
    ensures TruthyString(v.sessionId) ==> k == v.sessionId.value
    ensures !TruthyString(v.sessionId) ==>
      |LegacyPrefix| <= |k| && k[..|LegacyPrefix|] == LegacyPrefix && k[|LegacyPrefix|..] == v.ip
  {
    if TruthyString(v.sessionId) then v.sessionId.value else LegacyPrefix + v.ip
  }

  /** Records without a session id share a group exactly when they share an address. */
  lemma LegacyKeyIsPerAddress(v: Visit, w: Visit)
    requires !TruthyString(v.sessionId) && !TruthyString(w.sessionId)
    ensures SessionKey(v) == SessionKey(w) <==> v.ip == w.ip
  {
    if SessionKey(v) == SessionKey(w) {
      assert v.ip == SessionKey(v)[|LegacyPrefix|..];
    }
  }

  /** Visits with session ids share a group exactly when they share the id. */
  lemma SessionKeyIsSessionId(v: Visit, w: Visit)
    requires TruthyString(v.sessionId) && TruthyString(w.sessionId)
    ensures SessionKey(v) == SessionKey(w) <==> v.sessionId == w.sessionId
  {
  }

  // ---------------------------------------------------------------------------------------------
  // Reference definition of the grouping

  /** The visits whose key is `k`, in input order. */
  function Members(vs: seq<Visit>, k: string): (ms: seq<Visit>)
    ensures forall i :: 0 <= i < |ms| ==> SessionKey(ms[i]) == k
    decreases |vs|
  {
    if vs == [] then []
    else
      var earlier := Members(vs[..|vs| - 1], k);
      if SessionKey(vs[|vs| - 1]) == k then earlier + [vs[|vs| - 1]] else earlier
  }

  /** The distinct keys, in the order in which each first occurs. */
  function KeyOrder(vs: seq<Visit>): (ks: seq<string>)
    decreases |vs|
  {
    if vs == [] then []
    else
      var earlier := KeyOrder(vs[..|vs| - 1]);
      var k := SessionKey(vs[|vs| - 1]);
      if k in earlier then earlier else earlier + [k]
  }

  /** The earliest visit time of a non-empty list of visits. */
  function Earliest(s: seq<Visit>): (t: int)
    requires |s| > 0
    ensures forall i :: 0 <= i < |s| ==> t <= s[i].visitTime
    ensures exists i :: 0 <= i < |s| && t == s[i].visitTime
    decreases |s|
  {
    if |s| == 1 then s[0].visitTime
    else
      var e := Earliest(s[..|s| - 1]);
      assert forall i :: 0 <= i < |s| - 1 ==> s[..|s| - 1][i] == s[i];
      if s[|s| - 1].visitTime < e then s[|s| - 1].visitTime else e
  }

  /** The latest visit time of a non-empty list of visits. */
  function Latest(s: seq<Visit>): (t: int)
    requires |s| > 0
    ensures forall i :: 0 <= i < |s| ==> t >= s[i].visitTime
    ensures exists i :: 0 <= i < |s| && t == s[i].visitTime
    decreases |s|
  {
    if |s| == 1 then s[0].visitTime
    else
      var l := Latest(s[..|s| - 1]);
      assert forall i :: 0 <= i < |s| - 1 ==> s[..|s| - 1][i] == s[i];
      if s[|s| - 1].visitTime > l then s[|s| - 1].visitTime else l
  }

  /** The group of key `k`: identity from its first visit, all its visits, their count and span. */
  function GroupOf(vs: seq<Visit>, k: string): SessionGroup
    requires Members(vs, k) != []
  {
    var ms := Members(vs, k);
    SessionGroup(ms[0].sessionId, ms[0].ip, ms, ms[0].geolocation, |ms|, Earliest(ms), Latest(ms))
  }

  /** The groups of the keys `ks`, in that order. */
  function GroupsFor(vs: seq<Visit>, ks: seq<string>): (gs: seq<SessionGroup>)
    requires forall k :: k in ks ==> Members(vs, k) != []
    ensures |gs| == |ks|
    ensures forall j :: 0 <= j < |ks| ==> gs[j] == GroupOf(vs, ks[j])
  {
    seq(|ks|, j requires 0 <= j < |ks| && ks[j] in ks => GroupOf(vs, ks[j]))
  }

  /** The groups in the order their keys first occur, as `Array.from(map.values())` lists them. */
  function Grouped(vs: seq<Visit>): (gs: seq<SessionGroup>)
  {
    KeyOrderFacts(vs);
    GroupsFor(vs, KeyOrder(vs))
  }

  /** The number of distinct session ids; in this model every missing id is the one value `None`. */
  function UniqueSessions(vs: seq<Visit>): (n: nat)
    ensures n <= |vs|
    ensures vs != [] ==> n >= 1
  {
    IdsBound(vs);
    |set v | v in vs :: v.sessionId|
  }

  lemma {:induction false} IdsBound(vs: seq<Visit>)
    ensures |set v | v in vs :: v.sessionId| <= |vs|
    ensures vs != [] ==> |set v | v in vs :: v.sessionId| >= 1
    decreases |vs|
  {
    if vs != [] {
      var init, last := vs[..|vs| - 1], vs[|vs| - 1];
      assert vs == init + [last];
      IdsBound(init);
      SessionIdsSnoc(init, last);
    }
  }

  /** Sum of the groups' visit counts. */
  function TotalVisits(gs: seq<SessionGroup>): int
    decreases |gs|
  {
    if gs == [] then 0 else TotalVisits(gs[..|gs| - 1]) + gs[|gs| - 1].totalVisits
  }

  // ---------------------------------------------------------------------------------------------
  // Ordering of the groups: a stable sort, latest last visit first

  /** Groups ordered by last visit, latest first. */
  predicate NewestFirst(gs: seq<SessionGroup>)
  {
    forall i, j :: 0 <= i < j < |gs| ==> gs[i].lastVisit >= gs[j].lastVisit
  }

  /** Inserts `g` before the first group that is not later than it. */
  function InsertByLastVisit(g: SessionGroup, gs: seq<SessionGroup>): seq<SessionGroup>
    decreases |gs|
  {
    if gs == [] then [g]
    else if g.lastVisit >= gs[0].lastVisit then [g] + gs
    else [gs[0]] + InsertByLastVisit(g, gs[1..])
  }

  /** `sort((a, b) => b.lastVisit - a.lastVisit)`: a stable sort, latest last visit first. */
  function SortByLastVisit(gs: seq<SessionGroup>): seq<SessionGroup>
    decreases |gs|
  {
    if gs == [] then [] else InsertByLastVisit(gs[0], SortByLastVisit(gs[1..]))
  }

  /** The groups whose last visit is `t`, in order. */
  function WithLastVisit(gs: seq<SessionGroup>, t: int): seq<SessionGroup>
    decreases |gs|
  {
    if gs == [] then []
    else (if gs[0].lastVisit == t then [gs[0]] else []) + WithLastVisit(gs[1..], t)
  }

  /** The endpoint's answer for the stored visits `vs` (newest first, as the query returns them). */
  function StatsOf(vs: seq<Visit>): Stats
  {
    Stats(|vs|, UniqueSessions(vs), SortByLastVisit(Grouped(vs)))
  }

  // ---------------------------------------------------------------------------------------------
  // Lemmas about the reference definition

  lemma MembersSnoc(vs: seq<Visit>, v: Visit, k: string)
    ensures Members(vs + [v], k) == if SessionKey(v) == k then Members(vs, k) + [v] else Members(vs, k)
  {
    assert (vs + [v])[..|vs|] == vs;
  }

  lemma KeyOrderSnoc(vs: seq<Visit>, v: Visit)
    ensures KeyOrder(vs + [v]) ==
      if SessionKey(v) in KeyOrder(vs) then KeyOrder(vs) else KeyOrder(vs) + [SessionKey(v)]
  {
    assert (vs + [v])[..|vs|] == vs;
  }

  /** A group holds exactly the visits with its key. */
  lemma {:induction false} MembersExactly(vs: seq<Visit>, k: string)
    ensures forall v :: v in Members(vs, k) <==> v in vs && SessionKey(v) == k
    decreases |vs|
  {
    if vs != [] {
      var init, last := vs[..|vs| - 1], vs[|vs| - 1];
      assert vs == init + [last];
      MembersExactly(init, k);
      MembersSnoc(init, last, k);
    }
  }

  /** Members keep input order: the group of a concatenation is the concatenation of the groups. */
  lemma {:induction false} MembersConcat(a: seq<Visit>, b: seq<Visit>, k: string)
    ensures Members(a + b, k) == Members(a, k) + Members(b, k)
    decreases |b|
  {
    if b == [] {
      assert a + b == a;
    } else {
      var init, last := b[..|b| - 1], b[|b| - 1];
      assert b == init + [last];
      assert a + b == (a + init) + [last];
      var ma, mi := Members(a, k), Members(init, k);
      if SessionKey(last) == k {
        calc {
          Members((a + init) + [last], k);
        == { MembersSnoc(a + init, last, k); }
          Members(a + init, k) + [last];
        == { MembersConcat(a, init, k); }
          (ma + mi) + [last];
        == ma + (mi + [last]);
        == { MembersSnoc(init, last, k); }
          ma + Members(init + [last], k);
        }
      } else {
        calc {
          Members((a + init) + [last], k);
        == { MembersSnoc(a + init, last, k); }
          Members(a + init, k);
        == { MembersConcat(a, init, k); }
          ma + mi;
        == { MembersSnoc(init, last, k); }
          ma + Members(init + [last], k);
        }
      }
    }
  }

  /** The keys are distinct, and they are exactly the keys that have visits. */
  lemma {:induction false} KeyOrderFacts(vs: seq<Visit>)
    ensures forall a, b :: 0 <= a < b < |KeyOrder(vs)| ==> KeyOrder(vs)[a] != KeyOrder(vs)[b]
    ensures forall k :: k in KeyOrder(vs) <==> Members(vs, k) != []
    decreases |vs|
  {
    if vs != [] {
      var init, last := vs[..|vs| - 1], vs[|vs| - 1];
      assert vs == init + [last];
      KeyOrderFacts(init);
      KeyOrderSnoc(init, last);
      forall k ensures k in KeyOrder(vs) <==> Members(vs, k) != [] {
        MembersSnoc(init, last, k);
      }
    }
  }

  /** The first member of a group is the first visit with that key. */
  lemma {:induction false} FirstMemberIsFirstVisit(vs: seq<Visit>, k: string)
    requires Members(vs, k) != []
    ensures exists f :: 0 <= f < |vs| && vs[f] == Members(vs, k)[0] && SessionKey(vs[f]) == k
                        && forall e :: 0 <= e < f ==> SessionKey(vs[e]) != k
    decreases |vs|
  {
    var init, last := vs[..|vs| - 1], vs[|vs| - 1];
    assert vs == init + [last];
    assert Members(vs, k) == if SessionKey(last) == k then Members(init, k) + [last] else Members(init, k) by {
      MembersSnoc(init, last, k);
    }
    if Members(init, k) != [] {
      FirstMemberIsFirstVisit(init, k);
      var f :| 0 <= f < |init| && init[f] == Members(init, k)[0] && SessionKey(init[f]) == k
               && forall e :: 0 <= e < f ==> SessionKey(init[e]) != k;
      assert vs[f] == init[f];
      assert forall e :: 0 <= e < f ==> vs[e] == init[e];
      assert Members(vs, k)[0] == init[f];
    } else {
      var f := |vs| - 1;
      forall e | 0 <= e < f ensures SessionKey(vs[e]) != k {
        assert vs[e] == init[e] && init[e] in init;
        MembersExactly(init, k);
      }
      assert vs[f] == Members(vs, k)[0];
    }
  }

  /** Summed over keys `ks`, the sizes of their groups. */
  function MemberCount(vs: seq<Visit>, ks: seq<string>): nat
    decreases |ks|
  {
    if ks == [] then 0 else MemberCount(vs, ks[..|ks| - 1]) + |Members(vs, ks[|ks| - 1])|
  }

  /** One more visit adds one to the count of the distinct keys when its key is among them. */
  lemma {:induction false} MemberCountSnoc(vs: seq<Visit>, v: Visit, ks: seq<string>)
    requires forall a, b :: 0 <= a < b < |ks| ==> ks[a] != ks[b]
    ensures MemberCount(vs + [v], ks) == MemberCount(vs, ks) + (if SessionKey(v) in ks then 1 else 0)
    decreases |ks|
  {
    if ks != [] {
      var init, last := ks[..|ks| - 1], ks[|ks| - 1];
      assert ks == init + [last];
      MemberCountSnoc(vs, v, init);
      MembersSnoc(vs, v, last);
      assert SessionKey(v) in ks <==> SessionKey(v) in init || SessionKey(v) == last;
      assert last !in init;
    }
  }

  /** Counting the distinct keys' groups counts every visit exactly once. */
  lemma {:induction false} KeyOrderPartitions(vs: seq<Visit>)
    ensures MemberCount(vs, KeyOrder(vs)) == |vs|
    decreases |vs|
  {
    if vs != [] {
      var init, last := vs[..|vs| - 1], vs[|vs| - 1];
      assert vs == init + [last];
      var ko, k := KeyOrder(init), SessionKey(last);
      KeyOrderPartitions(init);
      KeyOrderFacts(init);
      KeyOrderSnoc(init, last);
      MemberCountSnoc(init, last, ko);
      if k !in ko {
        assert ko + [k] == KeyOrder(vs);
        assert (ko + [k])[..|ko|] == ko;
        MembersSnoc(init, last, k);
        assert Members(init, k) == [];
      }
    }
  }

  lemma {:induction false} TotalOfGroupsFor(vs: seq<Visit>, ks: seq<string>)
    requires forall k :: k in ks ==> Members(vs, k) != []
    ensures TotalVisits(GroupsFor(vs, ks)) == MemberCount(vs, ks)
    decreases |ks|
  {
    if ks != [] {
      var init := ks[..|ks| - 1];
      assert forall k :: k in init ==> k in ks;
      TotalOfGroupsFor(vs, init);
      var gs, gs' := GroupsFor(vs, ks), GroupsFor(vs, init);
      assert forall j :: 0 <= j < |gs'| ==> gs[..|gs| - 1][j] == gs'[j];
      assert gs[..|gs| - 1] == gs';
    }
  }

  // ---------------------------------------------------------------------------------------------
  // What the grouping promises

  /** Each group's count is the length of its visit list, and the counts add up to the records. */
  lemma GroupCountsAddUp(vs: seq<Visit>)
    ensures forall j :: 0 <= j < |Grouped(vs)| ==> Grouped(vs)[j].totalVisits == |Grouped(vs)[j].visits|
    ensures TotalVisits(Grouped(vs)) == |vs| == StatsOf(vs).totalRecords
  {
    KeyOrderFacts(vs);
    TotalOfGroupsFor(vs, KeyOrder(vs));
    KeyOrderPartitions(vs);
  }

  /** Every visit lands in exactly one group, the one of its key. */
  lemma EveryVisitInOneGroup(vs: seq<Visit>, i: nat)
    requires i < |vs|
    ensures exists j :: 0 <= j < |Grouped(vs)| && vs[i] in Grouped(vs)[j].visits
    ensures forall j1, j2 :: (0 <= j1 < |Grouped(vs)| && 0 <= j2 < |Grouped(vs)|
              && vs[i] in Grouped(vs)[j1].visits && vs[i] in Grouped(vs)[j2].visits) ==> j1 == j2
  {
    var gs, ko, k := Grouped(vs), KeyOrder(vs), SessionKey(vs[i]);
    KeyOrderFacts(vs);
    forall j | 0 <= j < |gs|
      ensures gs[j].visits == Members(vs, ko[j])
      ensures vs[i] in gs[j].visits <==> ko[j] == k
    {
      MembersExactly(vs, ko[j]);
    }
    MembersExactly(vs, k);
    assert k in ko;
    var j :| 0 <= j < |ko| && ko[j] == k;
    assert vs[i] in gs[j].visits;
  }

  /** A group's first and last visit bound every member's time and are members' times. */
  lemma GroupTimeSpan(vs: seq<Visit>, j: nat)
    requires j < |Grouped(vs)|
    ensures var g := Grouped(vs)[j];
      (forall m :: 0 <= m < |g.visits| ==> g.firstVisit <= g.visits[m].visitTime <= g.lastVisit)
      && (exists m :: 0 <= m < |g.visits| && g.visits[m].visitTime == g.firstVisit)
      && (exists m :: 0 <= m < |g.visits| && g.visits[m].visitTime == g.lastVisit)
  {
    KeyOrderFacts(vs);
    var k := KeyOrder(vs)[j];
    assert Grouped(vs)[j] == GroupOf(vs, k);
    var ms := Members(vs, k);
    assert Earliest(ms) == GroupOf(vs, k).firstVisit && Latest(ms) == GroupOf(vs, k).lastVisit;
  }

  /** A group's session id, address and geolocation come from the first visit with its key. */
  lemma GroupFromFirstVisit(vs: seq<Visit>, j: nat)
    requires j < |Grouped(vs)|
    ensures exists f :: (0 <= f < |vs| && SessionKey(vs[f]) == KeyOrder(vs)[j]
                         && (forall e :: 0 <= e < f ==> SessionKey(vs[e]) != KeyOrder(vs)[j])
                         && Grouped(vs)[j].sessionId == vs[f].sessionId
                         && Grouped(vs)[j].ip == vs[f].ip
                         && Grouped(vs)[j].geolocation == vs[f].geolocation)
  {
    KeyOrderFacts(vs);
    FirstMemberIsFirstVisit(vs, KeyOrder(vs)[j]);
  }

  lemma SessionIdsSnoc(vs: seq<Visit>, v: Visit)
    ensures (set w | w in vs + [v] :: w.sessionId) == (set w | w in vs :: w.sessionId) + {v.sessionId}
  {
    var lhs, rhs := set w | w in vs + [v] :: w.sessionId, (set w | w in vs :: w.sessionId) + {v.sessionId};
    forall x | x in lhs ensures x in rhs {
      var w :| w in vs + [v] && w.sessionId == x;
      if w != v { assert w in vs; }
    }
    forall x | x in rhs ensures x in lhs {
      if x != v.sessionId {
        var w :| w in vs && w.sessionId == x;
        assert w in vs + [v];
      } else {
        assert v in vs + [v];
      }
    }
  }

  /** With session ids present, the last visit's id is new exactly when its key is new. */
  lemma NewIdIffNewKey(init: seq<Visit>, last: Visit)
    requires forall i :: 0 <= i < |init| ==> TruthyString(init[i].sessionId)
    requires TruthyString(last.sessionId)
    ensures last.sessionId in (set w | w in init :: w.sessionId) <==> SessionKey(last) in KeyOrder(init)
  {
    var k := SessionKey(last);
    KeyOrderFacts(init);
    MembersExactly(init, k);
    if last.sessionId in (set w | w in init :: w.sessionId) {
      var w :| w in init && w.sessionId == last.sessionId;
      assert w in Members(init, k);
    }
    if k in KeyOrder(init) {
      var w :| w in Members(init, k);
      var i :| 0 <= i < |init| && init[i] == w;
      assert TruthyString(w.sessionId);
      assert w.sessionId == last.sessionId;
    }
  }

  /** When every visit has a session id, each distinct id has its own group. */
  lemma {:induction false} UniqueSessionsCountGroups(vs: seq<Visit>)
    requires forall i :: 0 <= i < |vs| ==> TruthyString(vs[i].sessionId)
    ensures UniqueSessions(vs) == |KeyOrder(vs)| == |Grouped(vs)|
    decreases |vs|
  {
    if vs != [] {
      var init, last := vs[..|vs| - 1], vs[|vs| - 1];
      assert vs == init + [last];
      assert forall i :: 0 <= i < |init| ==> init[i] == vs[i];
      UniqueSessionsCountGroups(init);
      KeyOrderSnoc(init, last);
      SessionIdsSnoc(init, last);
      NewIdIffNewKey(init, last);
    }
  }

  /** Records without a session id count as one session but group by address. */
  lemma LegacyVisitsCountOnceButGroupApart(g: GeoRecord)
    ensures var vs := [Visit("10.0.0.1", None, 2, g), Visit("10.0.0.2", None, 1, g)];
      UniqueSessions(vs) == 1 && |Grouped(vs)| == 2
  {
    var v0, v1 := Visit("10.0.0.1", None, 2, g), Visit("10.0.0.2", None, 1, g);
    var vs := [v0, v1];
    SessionIdsSnoc([], v0);
    SessionIdsSnoc([v0], v1);
    assert [] + [v0] == [v0] && [v0] + [v1] == vs;
    assert (set w | w in vs :: w.sessionId) == {None};
    KeyOrderSnoc([], v0);
    KeyOrderSnoc([v0], v1);
    assert SessionKey(v0) != SessionKey(v1) by {
      assert SessionKey(v0)[14] != SessionKey(v1)[14];
    }
    assert |KeyOrder(vs)| == 2;
  }

  /** Visits ordered newest first, as the store's query returns them. */
  predicate NewestVisitFirst(vs: seq<Visit>)
  {
    forall i, j :: 0 <= i < j < |vs| ==> vs[i].visitTime >= vs[j].visitTime
  }

  /** A group of visits ordered newest first is itself ordered newest first. */
  lemma {:induction false} MembersKeepNewestFirst(vs: seq<Visit>, k: string)
    requires NewestVisitFirst(vs)
    ensures NewestVisitFirst(Members(vs, k))
    decreases |vs|
  {
    if vs != [] {
      var init, last := vs[..|vs| - 1], vs[|vs| - 1];
      assert vs == init + [last];
      assert forall i :: 0 <= i < |init| ==> init[i] == vs[i] && init[i].visitTime >= last.visitTime;
      MembersKeepNewestFirst(init, k);
      MembersSnoc(init, last, k);
      MembersExactly(init, k);
      var ms := Members(init, k);
      forall i | 0 <= i < |ms| ensures ms[i].visitTime >= last.visitTime {
        assert ms[i] in init;
      }
    }
  }

  /** For visits ordered newest first, a group's last visit is its first member and its first
      visit its last member. */
  lemma NewestFirstInputSpans(vs: seq<Visit>, j: nat)
    requires NewestVisitFirst(vs) && j < |Grouped(vs)|
    ensures var g := Grouped(vs)[j];
      g.visits != [] && g.lastVisit == g.visits[0].visitTime
      && g.firstVisit == g.visits[|g.visits| - 1].visitTime
  {
    KeyOrderFacts(vs);
    MembersKeepNewestFirst(vs, KeyOrder(vs)[j]);
  }

  // ---------------------------------------------------------------------------------------------
  // What the ordering promises

  /** Inserting adds exactly the one group. */
  lemma {:induction false} InsertAddsOne(g: SessionGroup, gs: seq<SessionGroup>)
    ensures multiset(InsertByLastVisit(g, gs)) == multiset(gs) + multiset{g}
    decreases |gs|
  {
    if gs != [] && g.lastVisit < gs[0].lastVisit {
      InsertAddsOne(g, gs[1..]);
      assert gs == [gs[0]] + gs[1..];
    }
  }

  /** Sorting is a permutation. */
  lemma {:induction false} SortIsPermutation(gs: seq<SessionGroup>)
    ensures multiset(SortByLastVisit(gs)) == multiset(gs)
    decreases |gs|
  {
    if gs != [] {
      var sorted := SortByLastVisit(gs[1..]);
      SortIsPermutation(gs[1..]);
      InsertAddsOne(gs[0], sorted);
      assert gs == [gs[0]] + gs[1..];
      assert multiset(gs) == multiset(gs[1..]) + multiset{gs[0]};
      assert SortByLastVisit(gs) == InsertByLastVisit(gs[0], sorted);
    }
  }

  /** Inserting into a list ordered latest first keeps it ordered, and puts either the new group
      or the old head first. */
  lemma {:induction false} InsertKeepsOrder(g: SessionGroup, gs: seq<SessionGroup>)
    requires NewestFirst(gs)
    ensures NewestFirst(InsertByLastVisit(g, gs))
    ensures InsertByLastVisit(g, gs)[0] == if gs != [] && g.lastVisit < gs[0].lastVisit then gs[0] else g
    decreases |gs|
  {
    if gs != [] && g.lastVisit < gs[0].lastVisit {
      var tail := gs[1..];
      assert NewestFirst(tail) by {
        forall i, j | 0 <= i < j < |tail| ensures tail[i].lastVisit >= tail[j].lastVisit {
          assert tail[i] == gs[i + 1] && tail[j] == gs[j + 1];
        }
      }
      var rest := InsertByLastVisit(g, tail);
      InsertKeepsOrder(g, tail);
      assert gs[0].lastVisit >= rest[0].lastVisit by {
        if tail != [] && g.lastVisit < tail[0].lastVisit {
          assert rest[0] == gs[1];
        }
      }
      var r := [gs[0]] + rest;
      assert r == InsertByLastVisit(g, gs);
      forall i, j | 0 <= i < j < |r| ensures r[i].lastVisit >= r[j].lastVisit {
        assert r[j] == rest[j - 1];
        if i > 0 {
          assert r[i] == rest[i - 1];
        } else if j > 1 {
          assert rest[0].lastVisit >= rest[j - 1].lastVisit;
        }
      }
    }
  }

  /** The sorted groups are ordered latest first. */
  lemma {:induction false} SortIsOrdered(gs: seq<SessionGroup>)
    ensures NewestFirst(SortByLastVisit(gs))
    decreases |gs|
  {
    if gs != [] {
      SortIsOrdered(gs[1..]);
      InsertKeepsOrder(gs[0], SortByLastVisit(gs[1..]));
    }
  }

  lemma WithLastVisitCons(x: SessionGroup, s: seq<SessionGroup>, t: int)
    ensures WithLastVisit([x] + s, t) == WithLastVisit([x], t) + WithLastVisit(s, t)
    ensures WithLastVisit([x], t) == if x.lastVisit == t then [x] else []
  {
    assert ([x] + s)[1..] == s;
    assert [x][1..] == [];
  }

  /** Inserting places the new group before every group with the same last visit. */
  lemma {:induction false} InsertKeepsTies(g: SessionGroup, gs: seq<SessionGroup>, t: int)
    ensures WithLastVisit(InsertByLastVisit(g, gs), t) == WithLastVisit([g], t) + WithLastVisit(gs, t)
    decreases |gs|
  {
    if gs == [] {
      assert WithLastVisit(gs, t) == [];
      assert [g] + gs == [g];
    } else if g.lastVisit >= gs[0].lastVisit {
      WithLastVisitCons(g, gs, t);
    } else {
      var head, tail := gs[0], gs[1..];
      var rest := InsertByLastVisit(g, tail);
      assert gs == [head] + tail;
      assert WithLastVisit(rest, t) == WithLastVisit([g], t) + WithLastVisit(tail, t) by {
        InsertKeepsTies(g, tail, t);
      }
      WithLastVisitCons(head, rest, t);
      WithLastVisitCons(head, tail, t);
      WithLastVisitCons(g, [], t);
      assert WithLastVisit([head], t) == [] || WithLastVisit([g], t) == [];
    }
  }

  /** Groups with the same last visit keep their relative order: the sort is stable. */
  lemma {:induction false} SortIsStable(gs: seq<SessionGroup>, t: int)
    ensures WithLastVisit(SortByLastVisit(gs), t) == WithLastVisit(gs, t)
    decreases |gs|
  {
    if gs != [] {
      SortIsStable(gs[1..], t);
      var sorted := SortByLastVisit(gs[1..]);
      assert SortByLastVisit(gs) == InsertByLastVisit(gs[0], sorted);
      InsertKeepsTies(gs[0], sorted, t);
      WithLastVisitCons(gs[0], gs[1..], t);
      assert gs == [gs[0]] + gs[1..];
    }
  }

  /** The endpoint's answer: its counts, and groups that are the grouping reordered latest first. */
  lemma StatsShape(vs: seq<Visit>)
    ensures StatsOf(vs).totalRecords == |vs|
    ensures multiset(StatsOf(vs).sessions) == multiset(Grouped(vs))
    ensures NewestFirst(StatsOf(vs).sessions)
    ensures forall t :: WithLastVisit(StatsOf(vs).sessions, t) == WithLastVisit(Grouped(vs), t)
  {
    SortIsOrdered(Grouped(vs));
    SortIsPermutation(Grouped(vs));
    forall t ensures WithLastVisit(StatsOf(vs).sessions, t) == WithLastVisit(Grouped(vs), t) {
      SortIsStable(Grouped(vs), t);
    }
  }

  // ---------------------------------------------------------------------------------------------
  // The handler, as the server runs it

  /** `Array.from(map.values())`: the groups of the keys `order`, in that order. */
  function ValuesInOrder(groups: map<string, SessionGroup>, order: seq<string>): (gs: seq<SessionGroup>)
    requires forall k :: k in order ==> k in groups
    ensures |gs| == |order|
    ensures forall j :: 0 <= j < |order| ==> gs[j] == groups[order[j]]
    decreases |order|
  {
    if order == [] then [] else ValuesInOrder(groups, order[..|order| - 1]) + [groups[order[|order| - 1]]]
  }

  /** The group a key's first visit creates, before that visit is added to it. */
  function NewGroup(v: Visit): (g: SessionGroup)
    ensures Members([v], SessionKey(v)) == [v] && AddVisit(g, v) == GroupOf([v], SessionKey(v))
  {
    assert [v][..0] == [];
    SessionGroup(v.sessionId, v.ip, [], v.geolocation, 0, v.visitTime, v.visitTime)
  }

  /**
   * Adding a visit to its group: append it, count it, and widen the time span to cover it
   * (the strict comparisons of the source, so an equal time changes nothing).
   */
  function AddVisit(g: SessionGroup, v: Visit): (r: SessionGroup)
    ensures r.visits == g.visits + [v] && r.totalVisits == g.totalVisits + 1
    ensures r.sessionId == g.sessionId && r.ip == g.ip && r.geolocation == g.geolocation
    ensures r.firstVisit <= v.visitTime <= r.lastVisit
    ensures r.firstVisit <= g.firstVisit && r.lastVisit >= g.lastVisit
    ensures (r.firstVisit == g.firstVisit || r.firstVisit == v.visitTime)
            && (r.lastVisit == g.lastVisit || r.lastVisit == v.visitTime)
  {
    g.(visits := g.visits + [v], totalVisits := g.totalVisits + 1,
       firstVisit := if v.visitTime < g.firstVisit then v.visitTime else g.firstVisit,
       lastVisit := if v.visitTime > g.lastVisit then v.visitTime else g.lastVisit)
  }

  /** A visit with another key leaves a group as it was. */
  lemma GroupOfOther(vs: seq<Visit>, v: Visit, k: string)
    requires SessionKey(v) != k && Members(vs, k) != []
    ensures Members(vs + [v], k) == Members(vs, k) && GroupOf(vs + [v], k) == GroupOf(vs, k)
  {
    MembersSnoc(vs, v, k);
  }

  /** The first visit of a key makes a group of that visit alone. */
  lemma GroupOfFirst(vs: seq<Visit>, v: Visit)
    requires Members(vs, SessionKey(v)) == []
    ensures Members(vs + [v], SessionKey(v)) == [v]
    ensures GroupOf(vs + [v], SessionKey(v)) == AddVisit(NewGroup(v), v)
  {
    MembersSnoc(vs, v, SessionKey(v));
  }

  /** A later visit of a key is added to the group that key already has. */
  lemma GroupOfNext(vs: seq<Visit>, v: Visit)
    requires Members(vs, SessionKey(v)) != []
    ensures Members(vs + [v], SessionKey(v)) != []
    ensures GroupOf(vs + [v], SessionKey(v)) == AddVisit(GroupOf(vs, SessionKey(v)), v)
  {
    var k := SessionKey(v);
    var ms := Members(vs, k);
    var ms' := ms + [v];
    assert Members(vs + [v], k) == ms' by {
      MembersSnoc(vs, v, k);
    }
    assert ms'[..|ms'| - 1] == ms;
    var g, g' := GroupOf(vs, k), GroupOf(vs + [v], k);
    assert g'.firstVisit == if v.visitTime < g.firstVisit then v.visitTime else g.firstVisit;
    assert g'.lastVisit == if v.visitTime > g.lastVisit then v.visitTime else g.lastVisit;
    assert g'.visits == g.visits + [v] && g'.totalVisits == g.totalVisits + 1;
    assert ms'[0] == ms[0];
  }

  /** `groups` and `order` hold the grouping of the visits `vs`. */
  ghost predicate Holds(vs: seq<Visit>, groups: map<string, SessionGroup>, order: seq<string>)
  {
    && order == KeyOrder(vs)
    && (forall k :: k in groups <==> k in order)
    && (forall k :: k in groups ==> Members(vs, k) != [] && groups[k] == GroupOf(vs, k))
  }

  /** The map after the loop body has handled `v`: its key's group, created if need be, gains `v`. */
  function Updated(groups: map<string, SessionGroup>, v: Visit): map<string, SessionGroup>
  {
    var key := SessionKey(v);
    groups[key := AddVisit(if key in groups then groups[key] else NewGroup(v), v)]
  }

  /** The key order after the loop body has handled `v`: a new key goes at the end. */
  function UpdatedOrder(groups: map<string, SessionGroup>, order: seq<string>, v: Visit): seq<string>
  {
    if SessionKey(v) in groups then order else order + [SessionKey(v)]
  }

  lemma StepOrder(vs: seq<Visit>, v: Visit, groups: map<string, SessionGroup>, order: seq<string>)
    requires Holds(vs, groups, order)
    ensures UpdatedOrder(groups, order, v) == KeyOrder(vs + [v])
    ensures forall k :: k in Updated(groups, v) <==> k in UpdatedOrder(groups, order, v)
  {
    KeyOrderSnoc(vs, v);
  }

  lemma StepGroups(vs: seq<Visit>, v: Visit, groups: map<string, SessionGroup>)
    requires forall k :: k in groups ==> Members(vs, k) != [] && groups[k] == GroupOf(vs, k)
    requires forall k :: k in groups <==> Members(vs, k) != []
    ensures forall k :: k in Updated(groups, v) ==>
      Members(vs + [v], k) != [] && Updated(groups, v)[k] == GroupOf(vs + [v], k)
  {
    var key, groups' := SessionKey(v), Updated(groups, v);
    forall k | k in groups'
      ensures Members(vs + [v], k) != [] && groups'[k] == GroupOf(vs + [v], k)
    {
      if k != key {
        GroupOfOther(vs, v, k);
      } else if key in groups {
        GroupOfNext(vs, v);
      } else {
        GroupOfFirst(vs, v);
      }
    }
  }

  /** One pass of the loop body turns the grouping of `vs` into that of `vs + [v]`. */
  lemma StepHolds(vs: seq<Visit>, v: Visit, groups: map<string, SessionGroup>, order: seq<string>)
    requires Holds(vs, groups, order)
    ensures Holds(vs + [v], Updated(groups, v), UpdatedOrder(groups, order, v))
  {
    KeyOrderFacts(vs);
    StepOrder(vs, v, groups, order);
    StepGroups(vs, v, groups);
  }

  /**
   * The body of the `forEach` callback: create the visit's group if its key is new, then fetch
   * it and add the visit to it.
   */
  method AddToGroups(groups: map<string, SessionGroup>, order: seq<string>, visit: Visit)
    returns (groups': map<string, SessionGroup>, order': seq<string>)
    ensures groups' == Updated(groups, visit) && order' == UpdatedOrder(groups, order, visit)
  {
    var key := SessionKey(visit);
    groups', order' := groups, order;
    if key !in groups' {
      groups' := groups'[key := NewGroup(visit)];
      order' := order' + [key];
    }
    var g := groups'[key];
    groups' := groups'[key := AddVisit(g, visit)];
  }

  /**
   * The `forEach` over the visits: a map from key to group, filled in and updated one visit at a
   * time, with the keys in insertion order. The result is the reference grouping.
   */
  method GroupVisits(vs: seq<Visit>) returns (groups: map<string, SessionGroup>, order: seq<string>)
    ensures order == KeyOrder(vs)
    ensures forall k :: k in groups <==> k in order
    ensures forall k :: k in groups ==> Members(vs, k) != [] && groups[k] == GroupOf(vs, k)
  {
    groups, order := map[], [];
    var i := 0;
    assert vs[..0] == [];
    while i < |vs|
      invariant 0 <= i <= |vs|
      invariant Holds(vs[..i], groups, order)
    {
      assert vs[..i + 1] == vs[..i] + [vs[i]];
      StepHolds(vs[..i], vs[i], groups, order);
      groups, order := AddToGroups(groups, order, vs[i]);
      i := i + 1;
    }
    assert vs[..|vs|] == vs;
  }

  /** The map's values in key order are the reference groups. */
  lemma ValuesAreGrouped(vs: seq<Visit>, groups: map<string, SessionGroup>, order: seq<string>)
    requires order == KeyOrder(vs)
    requires forall k :: k in groups <==> k in order
    requires forall k :: k in groups ==> Members(vs, k) != [] && groups[k] == GroupOf(vs, k)
    ensures ValuesInOrder(groups, order) == Grouped(vs)
  {
    var sessions, grouped := ValuesInOrder(groups, order), Grouped(vs);
    assert |sessions| == |grouped|;
    forall j | 0 <= j < |sessions| ensures sessions[j] == grouped[j] {
      assert sessions[j] == groups[order[j]];
    }
  }

  /** Builds the statistics response from the stored visits, newest first as the query returns them. */
  method ComputeStats(vs: seq<Visit>) returns (stats: Stats)
    ensures stats == StatsOf(vs)
  {
    var groups, order := GroupVisits(vs);
    var sessions := ValuesInOrder(groups, order);
    ValuesAreGrouped(vs, groups, order);
    stats := Stats(|vs|, UniqueSessions(vs), SortByLastVisit(sessions));
  }
}
