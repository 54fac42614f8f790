/** Which adjacent log entries may be swapped without changing what the log means. */
module Commutation {
  import opened Types
  import opened Argumentation
  import opened Reducer
  import opened Status

  /** Equal up to the order of the relation list. */
  ghost predicate SameMeaning(s: MaterializedState, t: MaterializedState) {
    s.claims == t.claims && s.stances == t.stances && multiset(s.relations) == multiset(t.relations)
  }

  predicate Conflict(x: Entry, y: Entry) {
    || (x.Claim? && y.Claim? && x.claimId == y.claimId)
    || (x.Stance? && y.Stance? && x.target == y.target && x.author == y.author)
    || (x.Claim? && y.Resolve? && x.claimId == y.claimId)
    || (x.Resolve? && y.Claim? && x.claimId == y.claimId)
    || (x.Resolve? && y.Resolve? && x.claimId == y.claimId)
  }

  lemma ReduceKeepsMeaning(s: MaterializedState, t: MaterializedState, e: Entry)
    requires SameMeaning(s, t)
    ensures SameMeaning(Reduce(s, e), Reduce(t, e))
  {
  }

  lemma {:induction false} ReplayKeepsMeaning(s: MaterializedState, t: MaterializedState, b: seq<Entry>)
    requires SameMeaning(s, t)
    ensures SameMeaning(ReplayFrom(s, b), ReplayFrom(t, b))
    decreases b
  {
    if b != [] {
      ReduceKeepsMeaning(s, t, b[0]);
      ReplayKeepsMeaning(Reduce(s, b[0]), Reduce(t, b[0]), b[1..]);
    }
  }

  /** Statuses do not depend on the order of the relations, although attacker lists do. */
  lemma SameMeaningSameStatuses(s: MaterializedState, t: MaterializedState)
    requires SameMeaning(s, t)
    ensures StatusMap(s) == StatusMap(t)
  {
    assert forall r :: r in s.relations <==> r in multiset(s.relations);
    assert forall r :: r in t.relations <==> r in multiset(t.relations);
    var f, g := ClaimFramework(s), ClaimFramework(t);
    forall id | id in ActiveClaims(s) ensures f[id] == g[id] {
      forall a ensures a in f[id] <==> a in g[id] {
        SourcesMeaning(s, s.relations, Attacks, id, a);
        SourcesMeaning(t, t.relations, Attacks, id, a);
        if a in f[id] {
          var r :| r in s.relations && Joins(s, r, Attacks, id) && r.source == a;
          assert r in t.relations && Joins(t, r, Attacks, id);
        }
        if a in g[id] {
          var r :| r in t.relations && Joins(t, r, Attacks, id) && r.source == a;
          assert r in s.relations && Joins(s, r, Attacks, id);
        }
      }
    }
    assert f == g;
  }

  lemma ClaimsCommute(claims: map<ClaimId, ClaimState>, x: Entry, y: Entry)
    requires !Conflict(x, y)
    ensures ClaimsStep(ClaimsStep(claims, x), y) == ClaimsStep(ClaimsStep(claims, y), x)
  {
    if (x.Claim? || x.Resolve?) && (y.Claim? || y.Resolve?) {
      assert x.claimId != y.claimId;
    }
  }

  lemma StancesCommute(stances: map<(ClaimId, Author), StanceState>, x: Entry, y: Entry)
    requires !Conflict(x, y)
    ensures StancesStep(StancesStep(stances, x), y) == StancesStep(StancesStep(stances, y), x)
  {
    if x.Stance? && y.Stance? {
      assert (x.target, x.author) != (y.target, y.author);
    }
  }

  lemma RelationsCommute(relations: seq<RelationState>, x: Entry, y: Entry)
    ensures multiset(RelationsStep(RelationsStep(relations, x), y)) == multiset(RelationsStep(RelationsStep(relations, y), x))
  {
  }

  lemma AdjacentSwap(s: MaterializedState, x: Entry, y: Entry)
    requires !Conflict(x, y)
    ensures SameMeaning(Reduce(Reduce(s, x), y), Reduce(Reduce(s, y), x))
  {
    ReduceActsSeparately(s, x);
    ReduceActsSeparately(s, y);
    ReduceActsSeparately(Reduce(s, x), y);
    ReduceActsSeparately(Reduce(s, y), x);
    ClaimsCommute(s.claims, x, y);
    StancesCommute(s.stances, x, y);
    RelationsCommute(s.relations, x, y);
  }

  lemma ReplayAround(a: seq<Entry>, x: Entry, y: Entry, b: seq<Entry>)
    ensures Replay(a + [x, y] + b) == ReplayFrom(Reduce(Reduce(Replay(a), x), y), b)
  {
    ReplayAppend(EMPTY, a + [x, y], b);
    ReplayAppend(EMPTY, a, [x, y]);
    var s := Replay(a);
    assert [x, y][1..] == [y] && [y][1..] == [];
    assert ReplayFrom(s, [x, y]) == ReplayFrom(Reduce(s, x), [y]);
    assert ReplayFrom(Reduce(s, x), [y]) == ReplayFrom(Reduce(Reduce(s, x), y), []);
  }

  /** The swap leaves claims, stances, relation multiset and statuses alone, around any context. */
  ghost predicate Interchangeable(x: Entry, y: Entry) {
    forall a: seq<Entry>, b: seq<Entry> :: SwapInvisible(a, x, y, b)
  }

  ghost predicate SwapInvisible(a: seq<Entry>, x: Entry, y: Entry, b: seq<Entry>) {
    var p, q := Replay(a + [x, y] + b), Replay(a + [y, x] + b);
    SameMeaning(p, q) && StatusMap(p) == StatusMap(q)
  }

  /** Two adjacent entries may be swapped in every log exactly when they do not conflict or are equal. */
  lemma InterchangeableIff(x: Entry, y: Entry)
    ensures Interchangeable(x, y) <==> !Conflict(x, y) || x == y
  {
    if !Conflict(x, y) || x == y {
      forall a: seq<Entry>, b: seq<Entry> ensures SwapInvisible(a, x, y, b) {
        ReplayAround(a, x, y, b);
        ReplayAround(a, y, x, b);
        if !Conflict(x, y) {
          AdjacentSwap(Replay(a), x, y);
        }
        ReplayKeepsMeaning(Reduce(Reduce(Replay(a), x), y), Reduce(Reduce(Replay(a), y), x), b);
        SameMeaningSameStatuses(Replay(a + [x, y] + b), Replay(a + [y, x] + b));
      }
    } else {
      ConflictShows(x, y);
    }
  }

  /** A log in which swapping two different conflicting entries shows. */
  lemma ConflictShows(x: Entry, y: Entry)
    requires Conflict(x, y) && x != y
    ensures !Interchangeable(x, y)
  {
    var a := if x.Resolve? && y.Resolve? then [Claim(x.claimId, "", "", Fact, None)] else [];
    ReplayAround(a, x, y, []);
    ReplayAround(a, y, x, []);
    var s := Replay(a);
    var p, q := Reduce(Reduce(s, x), y), Reduce(Reduce(s, y), x);
    assert Replay(a + [x, y] + []) == p && Replay(a + [y, x] + []) == q;
    if x.Resolve? && y.Resolve? {
      ReplayLast(a);
      assert a[..0] == [];
      assert x.claimId in s.claims;
    } else {
      assert s == EMPTY;
    }
    if x.Stance? {
      assert p.stances[(x.target, x.author)] != q.stances[(x.target, x.author)];
    } else {
      assert p.claims[x.claimId] != q.claims[x.claimId];
    }
    assert !SwapInvisible(a, x, y, []);
  }
}
