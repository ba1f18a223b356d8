/**
 * The display tree of a form: every FormDisplay names its parent display by id. A display
 * descends from an id when following parent links from it reaches that id. Removing a
 * display "and all its descendants" removes exactly the set Subtree(ds, id).
 */
module DisplayTree {
  import opened Entities

  /** p is a parent chain: every element but the last is a display whose parent is the next one. */
  ghost predicate IsChain(ds: map<int, FormDisplay>, p: seq<int>)
  {
    |p| >= 1 && forall i :: 0 <= i < |p| - 1 ==> p[i] in ds && ds[p[i]].idParent == p[i + 1]
  }

  /** Following parent links from d reaches a (in zero or more steps). */
  ghost predicate Descends(ds: map<int, FormDisplay>, d: int, a: int)
  {
    exists p :: IsChain(ds, p) && p[0] == d && p[|p| - 1] == a
  }

  /** The displays removed by deleting display a together with all its descendants. */
  ghost function Subtree(ds: map<int, FormDisplay>, a: int): set<int>
  {
    set d | d in ds.Keys && Descends(ds, d, a)
  }

  /** The displays removed by deleting every display of roots together with its descendants. */
  ghost function SubtreesOf(ds: map<int, FormDisplay>, roots: set<int>): set<int>
  {
    set d | d in ds.Keys && exists r :: r in roots && Descends(ds, d, r)
  }

  /** Every display whose parent is in s is in s as well. */
  ghost predicate ClosedUnderChildren(ds: map<int, FormDisplay>, s: set<int>)
  {
    forall c :: c in ds && ds[c].idParent in s ==> c in s
  }

  /**
   * The tree invariant of a form: the root sentinel is no display id, and every display that
   * is not a root has a parent display of the same step.
   */
  ghost predicate StepCoherent(ds: map<int, FormDisplay>)
  {
    && DISPLAY_ROOT_PARENT_ID !in ds
    && forall k :: k in ds && ds[k].idParent != DISPLAY_ROOT_PARENT_ID ==>
         ds[k].idParent in ds && ds[ds[k].idParent].idStep == ds[k].idStep
  }

  lemma DescendsFromItself(ds: map<int, FormDisplay>, d: int)
    ensures Descends(ds, d, d)
  {
    assert IsChain(ds, [d]);
  }

  /** A display descends from everything its parent descends from. */
  lemma ChildDescends(ds: map<int, FormDisplay>, c: int, a: int)
    requires c in ds && Descends(ds, ds[c].idParent, a)
    ensures Descends(ds, c, a)
  {
    var p :| IsChain(ds, p) && p[0] == ds[c].idParent && p[|p| - 1] == a;
    var q := [c] + p;
    forall i | 0 <= i < |q| - 1
      ensures q[i] in ds && ds[q[i]].idParent == q[i + 1]
    {
      if i > 0 {
        assert q[i] == p[i - 1] && q[i + 1] == p[i];
      }
    }
    assert IsChain(ds, q) && q[0] == c && q[|q| - 1] == a;
  }

  /** Every tail of a parent chain is a parent chain. */
  lemma ChainSuffix(ds: map<int, FormDisplay>, p: seq<int>, k: nat)
    requires IsChain(ds, p) && k < |p|
    ensures IsChain(ds, p[k..])
  {
    var q := p[k..];
    forall i | 0 <= i < |q| - 1
      ensures q[i] in ds && ds[q[i]].idParent == q[i + 1]
    {
      assert q[i] == p[k + i] && q[i + 1] == p[k + i + 1];
    }
  }

  /** Descent is transitive: two chains joined at x form one chain. */
  lemma DescendsTransitive(ds: map<int, FormDisplay>, d: int, x: int, a: int)
    requires Descends(ds, d, x) && Descends(ds, x, a)
    ensures Descends(ds, d, a)
  {
    var p :| IsChain(ds, p) && p[0] == d && p[|p| - 1] == x;
    var q :| IsChain(ds, q) && q[0] == x && q[|q| - 1] == a;
    var r := p + q[1..];
    forall i | 0 <= i < |r| - 1
      ensures r[i] in ds && ds[r[i]].idParent == r[i + 1]
    {
      if i < |p| - 1 {
        assert r[i] == p[i] && r[i + 1] == p[i + 1];
      } else {
        var j := i - (|p| - 1);
        assert r[i] == q[j] && r[i + 1] == q[j + 1];
      }
    }
    assert IsChain(ds, r) && r[0] == d && r[|r| - 1] == a;
  }

  /** A parent chain ending in a member of a set closed under children lies in that set. */
  lemma {:induction false} ChainInClosed(ds: map<int, FormDisplay>, p: seq<int>, s: set<int>)
    requires IsChain(ds, p) && p[|p| - 1] in s && ClosedUnderChildren(ds, s)
    ensures p[0] in s
    decreases |p|
  {
    if |p| > 1 {
      ChainSuffix(ds, p, 1);
      ChainInClosed(ds, p[1..], s);
      var c := p[0];
      assert p[1..][0] == p[1];
      assert c in ds && ds[c].idParent == p[1];
      assert c in ds && ds[c].idParent in s;
    }
  }

  /** A set that holds a and is closed under children holds every descendant of a. */
  lemma ClosedContainsSubtree(ds: map<int, FormDisplay>, a: int, s: set<int>)
    requires a in s && ClosedUnderChildren(ds, s)
    ensures Subtree(ds, a) <= s
  {
    forall d | d in Subtree(ds, a)
      ensures d in s
    {
      var p :| IsChain(ds, p) && p[0] == d && p[|p| - 1] == a;
      ChainInClosed(ds, p, s);
    }
  }

  /**
   * Deleting the subtrees of some roots from the original table and then the subtree of r,
   * computed in the table that is left, removes the same displays as deleting the subtrees
   * of all of them from the original table at once.
   */
  lemma RemoveNextSubtree(ds: map<int, FormDisplay>, done: set<int>, r: int)
    ensures var rest := ds - SubtreesOf(ds, done);
            rest - Subtree(rest, r) == ds - SubtreesOf(ds, done + {r})
  {
    var gone := SubtreesOf(ds, done);
    var rest := ds - gone;
    forall d | d in rest
      ensures Descends(rest, d, r) <==> Descends(ds, d, r)
    {
      if Descends(rest, d, r) {
        var p :| IsChain(rest, p) && p[0] == d && p[|p| - 1] == r;
        assert IsChain(ds, p);
      }
      if Descends(ds, d, r) {
        var p :| IsChain(ds, p) && p[0] == d && p[|p| - 1] == r;
        forall i | 0 <= i < |p| - 1
          ensures p[i] in rest
        {
          if p[i] in gone {
            var r' :| r' in done && Descends(ds, p[i], r');
            var prefix := p[..i + 1];
            assert IsChain(ds, prefix) by {
              forall j | 0 <= j < |prefix| - 1
                ensures prefix[j] in ds && ds[prefix[j]].idParent == prefix[j + 1]
              {
                assert prefix[j] == p[j] && prefix[j + 1] == p[j + 1];
              }
            }
            assert Descends(ds, d, p[i]) by {
              assert prefix[0] == d && prefix[|prefix| - 1] == p[i];
            }
            DescendsTransitive(ds, d, p[i], r');
            assert false;
          }
        }
        assert IsChain(rest, p);
      }
    }
    var lhs := rest - Subtree(rest, r);
    var rhs := ds - SubtreesOf(ds, done + {r});
    assert lhs.Keys == rhs.Keys;
    forall k | k in lhs
      ensures lhs[k] == rhs[k]
    {
    }
  }

  /**
   * The worklist behind deleting a display and its descendants: collect a, then the
   * children of every collected display, until nothing new turns up.
   */
  method CollectSubtree(ds: map<int, FormDisplay>, a: int) returns (sub: set<int>)
    ensures sub == Subtree(ds, a)
  {
    var found := {a};
    var frontier := {a};
    DescendsFromItself(ds, a);
    while frontier != {}
      invariant frontier <= found <= ds.Keys + {a}
      invariant a in found
      invariant forall x :: x in found ==> Descends(ds, x, a)
      invariant forall c :: c in ds && ds[c].idParent in found - frontier ==> c in found
      decreases ds.Keys + {a} - found, frontier
    {
      NonEmptyHasMember(frontier);
      var x :| x in frontier;
      var children := set c | c in ds.Keys && ds[c].idParent == x;
      forall c | c in children
        ensures Descends(ds, c, a)
      {
        ChildDescends(ds, c, a);
      }
      var added := children - found;
      found := found + added;
      frontier := frontier - {x} + added;
    }
    ClosedContainsSubtree(ds, a, found);
    sub := found * ds.Keys;
  }

  /** In a step-coherent table, a parent chain between two displays never leaves the step. */
  lemma {:induction false} ChainStaysInStep(ds: map<int, FormDisplay>, p: seq<int>, i: nat)
    requires StepCoherent(ds) && IsChain(ds, p) && p[|p| - 1] in ds && p[0] in ds
    requires i < |p|
    ensures p[i] in ds && ds[p[i]].idStep == ds[p[0]].idStep
  {
    if i > 0 {
      ChainStaysInStep(ds, p, i - 1);
      var c := p[i - 1];
      assert c in ds && ds[c].idParent == p[i];
      assert p[i] in ds by {
        if i < |p| - 1 {
          assert p[i] in ds && ds[p[i]].idParent == p[i + 1];
        }
      }
      assert ds[c].idParent != DISPLAY_ROOT_PARENT_ID;
      assert ds[ds[c].idParent].idStep == ds[c].idStep;
    }
  }
}
