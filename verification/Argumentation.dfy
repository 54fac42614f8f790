/**
 Dung's grounded semantics, stated without reference to any algorithm.

 A framework maps each node to the set of its attackers.  An attacker that is not itself
 a node of the framework is never defeated, and never defeats anything.
 */
module Argumentation {

  datatype Label = In | Out | Undec

  type Framework<T> = map<T, set<T>>

  type Labelling<T> = map<T, Label>

  /** Some member of `s` attacks `a`. */
  ghost predicate AttackedFrom<T>(af: Framework<T>, a: T, s: set<T>) {
    a in af && exists b :: b in af[a] && b in s
  }

  /** Every attacker of `a` is attacked from `s`. */
  ghost predicate Defends<T>(af: Framework<T>, s: set<T>, a: T)
    requires a in af
  {
    forall b :: b in af[a] ==> AttackedFrom(af, b, s)
  }

  /** Dung's characteristic function. */
  ghost function Characteristic<T>(af: Framework<T>, s: set<T>): set<T> {
    set a | a in af && Defends(af, s, a)
  }

  ghost function Iterate<T>(af: Framework<T>, k: nat): set<T> {
    if k == 0 then {} else Characteristic(af, Iterate(af, k - 1))
  }

  ghost function GroundedSet<T>(af: Framework<T>): set<T> {
    Iterate(af, |af|)
  }

  ghost function GroundedLabel<T>(af: Framework<T>, a: T): Label {
    if a in GroundedSet(af) then In
    else if AttackedFrom(af, a, GroundedSet(af)) then Out
    else Undec
  }

  ghost predicate Has<T>(l: Labelling<T>, a: T, value: Label) {
    a in l && l[a] == value
  }

  ghost predicate Complete<T>(af: Framework<T>, l: Labelling<T>) {
    && l.Keys == af.Keys
    && forall a :: a in af ==>
      && (l[a] == In <==> forall b :: b in af[a] ==> Has(l, b, Out))
      && (l[a] == Out <==> exists b :: b in af[a] && Has(l, b, In))
  }

  ghost function InSet<T>(l: Labelling<T>): set<T> {
    set a | a in l && l[a] == In
  }

  // ------------------------------------------------------------------ least fixpoint

  lemma CharacteristicMonotone<T>(af: Framework<T>, s: set<T>, t: set<T>)
    requires s <= t
    ensures Characteristic(af, s) <= Characteristic(af, t)
  {
    forall a | a in Characteristic(af, s) ensures a in Characteristic(af, t) {
      forall b | b in af[a] ensures AttackedFrom(af, b, t) {
        assert AttackedFrom(af, b, s);
      }
    }
  }

  lemma {:induction false} IterateGrows<T>(af: Framework<T>, k: nat)
    ensures Iterate(af, k) <= Iterate(af, k + 1)
  {
    if k > 0 {
      IterateGrows(af, k - 1);
      CharacteristicMonotone(af, Iterate(af, k - 1), Iterate(af, k));
    }
  }

  /** Either the iteration is stable by step `k`, or it has collected at least `k` nodes. */
  lemma {:induction false} IterateStableOrLarge<T>(af: Framework<T>, k: nat)
    ensures Iterate(af, k) == Iterate(af, k + 1) || |Iterate(af, k)| >= k
  {
    if k > 0 {
      IterateStableOrLarge(af, k - 1);
      IterateGrows(af, k - 1);
      var s, t := Iterate(af, k - 1), Iterate(af, k);
      if s != t {
        assert |s| >= k - 1;
        SubsetSmaller(s, t);
      }
    }
  }

  lemma SubsetSmaller<T>(s: set<T>, t: set<T>)
    requires s <= t
    ensures |s| <= |t|
    ensures s != t ==> |s| < |t|
  {
    assert t == s + (t - s);
    assert |t| == |s| + |t - s|;
    if s != t {
      assert exists x :: x in t - s;
    }
  }

  lemma KeysCount<T>(af: Framework<T>)
    ensures |af.Keys| == |af|
  {
  }

  /** The grounded set is a fixpoint of the characteristic function, and the least pre-fixpoint. */
  lemma GroundedIsLeastFixpoint<T>(af: Framework<T>)
    ensures Characteristic(af, GroundedSet(af)) == GroundedSet(af)
    ensures forall s :: Characteristic(af, s) <= s ==> GroundedSet(af) <= s
  {
    var n := |af|;
    IterateStableOrLarge(af, n);
    IterateGrows(af, n);
    if Iterate(af, n) != Iterate(af, n + 1) {
      KeysCount(af);
      assert Iterate(af, n + 1) <= af.Keys;
      SubsetSmaller(Iterate(af, n + 1), af.Keys);
      SubsetSmaller(Iterate(af, n), Iterate(af, n + 1));
      assert false;
    }
    forall s | Characteristic(af, s) <= s ensures GroundedSet(af) <= s {
      IterateBelow(af, s, n);
    }
  }

  lemma {:induction false} IterateBelow<T>(af: Framework<T>, s: set<T>, k: nat)
    requires Characteristic(af, s) <= s
    ensures Iterate(af, k) <= s
  {
    if k > 0 {
      IterateBelow(af, s, k - 1);
      CharacteristicMonotone(af, Iterate(af, k - 1), s);
    }
  }

  lemma {:induction false} IterateConflictFree<T>(af: Framework<T>, k: nat, a: T)
    requires a in Iterate(af, k)
    ensures !AttackedFrom(af, a, Iterate(af, k))
  {
    if AttackedFrom(af, a, Iterate(af, k)) {
      var prev := Iterate(af, k - 1);
      var b :| b in af[a] && b in Iterate(af, k);
      assert AttackedFrom(af, b, prev);
      var c :| c in af[b] && c in prev;
      assert AttackedFrom(af, c, prev);
      IterateConflictFree(af, k - 1, c);
      assert false;
    }
  }

  // ------------------------------------------------------------ complete labellings

  ghost function GroundedLabelling<T>(af: Framework<T>): Labelling<T> {
    map a | a in af :: GroundedLabel(af, a)
  }

  lemma GroundedIsComplete<T>(af: Framework<T>)
    ensures Complete(af, GroundedLabelling(af))
    ensures InSet(GroundedLabelling(af)) == GroundedSet(af)
  {
    var g, l := GroundedSet(af), GroundedLabelling(af);
    GroundedIsLeastFixpoint(af);
    forall a | a in g ensures a in af && !AttackedFrom(af, a, g) {
      IterateConflictFree(af, |af|, a);
    }
    forall b ensures Has(l, b, Out) <==> AttackedFrom(af, b, g) {
    }
    forall b ensures Has(l, b, In) <==> b in g {
    }
    forall a | a in af
      ensures l[a] == In <==> forall b :: b in af[a] ==> Has(l, b, Out)
      ensures l[a] == Out <==> exists b :: b in af[a] && Has(l, b, In)
    {
      assert l[a] == In <==> Defends(af, g, a);
      assert l[a] == Out <==> AttackedFrom(af, a, g);
    }
  }

  /** The in-nodes of a complete labelling are closed under the characteristic function. */
  lemma CompleteIsClosed<T>(af: Framework<T>, l: Labelling<T>)
    requires Complete(af, l)
    ensures Characteristic(af, InSet(l)) <= InSet(l)
  {
    forall a | a in Characteristic(af, InSet(l)) ensures a in InSet(l) {
      forall b | b in af[a] ensures Has(l, b, Out) {
        assert AttackedFrom(af, b, InSet(l));
        var c :| c in af[b] && c in InSet(l);
        assert Has(l, c, In);
      }
    }
  }

  /** The grounded labelling is below every complete labelling, in and out alike. */
  lemma GroundedIsLeastComplete<T>(af: Framework<T>, l: Labelling<T>)
    requires Complete(af, l)
    ensures GroundedSet(af) <= InSet(l)
    ensures forall a :: a in af && GroundedLabel(af, a) == Out ==> l[a] == Out
  {
    CompleteIsClosed(af, l);
    GroundedIsLeastFixpoint(af);
    forall a | a in af && GroundedLabel(af, a) == Out ensures l[a] == Out {
      var b :| b in af[a] && b in GroundedSet(af);
      assert Has(l, b, In);
    }
  }

  /** Only the grounded labelling is complete with all its in-nodes grounded. */
  lemma CompleteWithinGrounded<T>(af: Framework<T>, l: Labelling<T>)
    requires Complete(af, l)
    requires InSet(l) <= GroundedSet(af)
    ensures forall a :: a in af ==> l[a] == GroundedLabel(af, a)
  {
    GroundedIsLeastComplete(af, l);
    var g := GroundedSet(af);
    assert InSet(l) == g;
    forall a | a in af ensures l[a] == GroundedLabel(af, a) {
      assert l[a] == In <==> a in g;
      assert l[a] == Out <==> AttackedFrom(af, a, g) by {
        if l[a] == Out {
          var b :| b in af[a] && Has(l, b, In);
          assert b in g;
        }
        if AttackedFrom(af, a, g) {
          var b :| b in af[a] && b in g;
          assert Has(l, b, In);
        }
      }
    }
  }

  // ----------------------------------------------------------------- directionality

  /** No node of `u` is attacked from outside `u`, and both frameworks attack `u` alike. */
  ghost predicate AgreeOn<T>(f: Framework<T>, g: Framework<T>, u: set<T>) {
    forall a :: a in u ==> a in f && a in g && f[a] == g[a] && f[a] <= u
  }

  lemma {:induction false} IterateAgree<T>(f: Framework<T>, g: Framework<T>, u: set<T>, k: nat)
    requires AgreeOn(f, g, u)
    ensures Iterate(f, k) * u == Iterate(g, k) * u
  {
    if k > 0 {
      IterateAgree(f, g, u, k - 1);
      var s, t := Iterate(f, k - 1), Iterate(g, k - 1);
      forall a | a in u ensures a in Iterate(f, k) <==> a in Iterate(g, k) {
        forall b | b in f[a] ensures AttackedFrom(f, b, s) <==> AttackedFrom(g, b, t) {
          forall c | c in f[b] ensures c in s <==> c in t {
            assert c in u;
            assert c in s * u <==> c in t * u;
          }
        }
      }
    }
  }

  lemma {:induction false} IterateBeyond<T>(af: Framework<T>, k: nat)
    requires k >= |af|
    ensures Iterate(af, k) == GroundedSet(af)
  {
    if k > |af| {
      IterateBeyond(af, k - 1);
      GroundedIsLeastFixpoint(af);
    }
  }

  lemma Directionality<T>(f: Framework<T>, g: Framework<T>, u: set<T>)
    requires AgreeOn(f, g, u)
    ensures forall a :: a in u ==> GroundedLabel(f, a) == GroundedLabel(g, a)
  {
    var k := |f| + |g|;
    IterateAgree(f, g, u, k);
    IterateBeyond(f, k);
    IterateBeyond(g, k);
    var s, t := GroundedSet(f), GroundedSet(g);
    forall a | a in u ensures GroundedLabel(f, a) == GroundedLabel(g, a) {
      assert a in s <==> a in s * u;
      assert a in t <==> a in t * u;
      forall b | b in f[a] ensures b in s <==> b in t {
        assert b in s * u <==> b in t * u;
      }
    }
  }

  // ----------------------------------------------------------------------- renaming

  /** `name` renames the nodes of `f` one to one onto the nodes of `g`, carrying attacks to attacks. */
  ghost predicate Isomorphic<S, T>(f: Framework<S>, g: Framework<T>, name: map<S, T>) {
    && name.Keys == f.Keys
    && (forall a :: a in f ==> f[a] <= f.Keys)
    && (forall a, b :: a in f && b in f && name[a] == name[b] ==> a == b)
    && g.Keys == Renamed(f.Keys, name)
    && forall a :: a in f ==> name[a] in g && g[name[a]] == Renamed(f[a], name)
  }

  ghost function Renamed<S, T>(s: set<S>, name: map<S, T>): (r: set<T>)
    requires s <= name.Keys
    ensures forall a :: a in s ==> name[a] in r
    ensures forall b :: b in r ==> exists a :: a in s && name[a] == b
  {
    set a | a in s :: name[a]
  }

  /** `t` holds the new names of exactly those nodes of `f` that `s` holds. */
  ghost predicate Corresponds<S, T>(name: map<S, T>, s: set<S>, t: set<T>) {
    forall a :: a in name ==> (a in s <==> name[a] in t)
  }

  /** One application of the characteristic function keeps a correspondence. */
  ghost predicate StepsCorrespond<S(!new), T(!new)>(f: Framework<S>, g: Framework<T>, name: map<S, T>) {
    forall s: set<S>, t: set<T> :: Corresponds(name, s, t) ==> Corresponds(name, Characteristic(f, s), Characteristic(g, t))
  }

  lemma {:induction false} IterateRenamed<S(!new), T(!new)>(f: Framework<S>, g: Framework<T>, name: map<S, T>, k: nat)
    requires StepsCorrespond(f, g, name)
    ensures Corresponds(name, Iterate(f, k), Iterate(g, k))
  {
    if k > 0 {
      IterateRenamed(f, g, name, k - 1);
    }
  }

  lemma CharacteristicRenamed<S, T>(f: Framework<S>, g: Framework<T>, name: map<S, T>, s: set<S>, t: set<T>)
    requires Isomorphic(f, g, name) && Corresponds(name, s, t)
    ensures Corresponds(name, Characteristic(f, s), Characteristic(g, t))
  {
    forall b | b in f ensures AttackedFrom(f, b, s) <==> AttackedFrom(g, name[b], t) {
      AttackedFromRenamed(f, g, name, s, t, b);
    }
    forall a | a in f ensures a in Characteristic(f, s) <==> name[a] in Characteristic(g, t) {
      DefendsRenamed(f, g, name, s, t, a);
    }
  }

  lemma DefendsRenamed<S, T>(f: Framework<S>, g: Framework<T>, name: map<S, T>, s: set<S>, t: set<T>, a: S)
    requires Isomorphic(f, g, name) && a in f
    requires forall b :: b in f ==> (AttackedFrom(f, b, s) <==> AttackedFrom(g, name[b], t))
    ensures Defends(f, s, a) <==> Defends(g, t, name[a])
  {
    if Defends(f, s, a) {
      forall y | y in g[name[a]] ensures AttackedFrom(g, y, t) {
        var b :| b in f[a] && name[b] == y;
      }
    }
    if Defends(g, t, name[a]) {
      forall b | b in f[a] ensures AttackedFrom(f, b, s) {
        assert name[b] in g[name[a]];
      }
    }
  }

  lemma AttackedFromRenamed<S, T>(f: Framework<S>, g: Framework<T>, name: map<S, T>, s: set<S>, t: set<T>, b: S)
    requires Isomorphic(f, g, name) && b in f && Corresponds(name, s, t)
    ensures AttackedFrom(f, b, s) <==> AttackedFrom(g, name[b], t)
  {
    if AttackedFrom(f, b, s) {
      var c :| c in f[b] && c in s;
      assert name[c] in g[name[b]];
    }
    if AttackedFrom(g, name[b], t) {
      var y :| y in g[name[b]] && y in t;
      var c :| c in f[b] && name[c] == y;
      assert c in s;
    }
  }

  /** Renaming the nodes renames the grounded labels: node identities carry no information. */
  lemma RenamingInvariance<S(!new), T(!new)>(f: Framework<S>, g: Framework<T>, name: map<S, T>)
    requires Isomorphic(f, g, name)
    ensures forall a :: a in f ==> GroundedLabel(f, a) == GroundedLabel(g, name[a])
  {
    var k := |f| + |g|;
    forall s: set<S>, t: set<T> | Corresponds(name, s, t) ensures Corresponds(name, Characteristic(f, s), Characteristic(g, t)) {
      CharacteristicRenamed(f, g, name, s, t);
    }
    IterateRenamed(f, g, name, k);
    IterateBeyond(f, k);
    IterateBeyond(g, k);
    forall a | a in f ensures GroundedLabel(f, a) == GroundedLabel(g, name[a]) {
      AttackedFromRenamed(f, g, name, GroundedSet(f), GroundedSet(g), a);
    }
  }
}
