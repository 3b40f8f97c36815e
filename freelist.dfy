/**
 * The explicit free list (mm.c:83-109, mm.c:212-238).
 *
 * Free blocks are threaded on a circular doubly-linked list whose links are
 * 8-byte words inside the free payload: `prev` at bp and `next` at bp + 8.
 * The prologue payload `heap_listp` is the permanent sentinel.  Here the
 * list is described by the sequence of payload addresses met when following
 * `next` from the sentinel.
 */
module FreeList {
  import opened Codec

  function Elems(s: seq<int>): (xs: set<int>) { set x | x in s }

  ghost predicate Distinct(s: seq<int>)
  {
    forall i, j :: 0 <= i < j < |s| ==> s[i] != s[j]
  }

  /** The list with the first occurrence of x unlinked. */
  function Erase(s: seq<int>, x: int): (s': seq<int>)
  {
    if s == [] then [] else if s[0] == x then s[1..] else [s[0]] + Erase(s[1..], x)
  }

  lemma ElemsCons(x: int, s: seq<int>)
    ensures Elems([x] + s) == {x} + Elems(s)
  {
    assert forall y :: y in [x] + s <==> y == x || y in s;
  }

  /** Unlinking an entry of a list without repetitions removes exactly that
      entry and keeps the order of the others. */
  lemma {:induction false} EraseAt(s: seq<int>, k: int)
    requires Distinct(s) && 0 <= k < |s|
    ensures Erase(s, s[k]) == s[..k] + s[k + 1..]
  {
    if k > 0 {
      assert s[1..][k - 1] == s[k];
      EraseAt(s[1..], k - 1);
      assert s[1..][..k - 1] + s[1..][k..] == s[1..k] + s[k + 1..];
      assert [s[0]] + (s[1..k] + s[k + 1..]) == s[..k] + s[k + 1..];
    }
  }

  /** Erase keeps the list repetition-free, drops x from its elements and
      shortens it by one exactly when x was on it. */
  lemma {:induction false} EraseProps(s: seq<int>, x: int)
    requires Distinct(s)
    ensures Distinct(Erase(s, x))
    ensures Elems(Erase(s, x)) == Elems(s) - {x}
    ensures |Erase(s, x)| == if x in s then |s| - 1 else |s|
  {
    if s != [] {
      assert Distinct(s[1..]) by {
        forall i, j | 0 <= i < j < |s| - 1 ensures s[1..][i] != s[1..][j] {
          assert s[1..][i] == s[i + 1] && s[1..][j] == s[j + 1];
        }
      }
      assert Elems(s) == {s[0]} + Elems(s[1..]);
      assert s[0] !in s[1..] by {
        forall j | 0 <= j < |s| - 1 ensures s[1..][j] != s[0] {
          assert s[1..][j] == s[j + 1];
        }
      }
      EraseProps(s[1..], x);
      if s[0] != x {
        var r := [s[0]] + Erase(s[1..], x);
        forall i, j | 0 <= i < j < |r| ensures r[i] != r[j] {
          if i == 0 {
            assert r[j] in Elems(Erase(s[1..], x));
          }
        }
        assert Elems(r) == {s[0]} + Elems(Erase(s[1..], x));
      }
    }
  }

  /** Links never share a word: every node lies at least 16 bytes past the
      sentinel and away from every other node. */
  ghost predicate Spaced(s: int, fl: seq<int>)
  {
    (forall k :: 0 <= k < |fl| ==> s + MinBlock <= fl[k]) &&
    (forall j, k {:trigger Apart(fl[j], fl[k])} :: 0 <= j < k < |fl| ==> Apart(fl[j], fl[k]))
  }

  /** The node before fl[k] and the node after it on the circular list. */
  function Pred(s: int, fl: seq<int>, k: int): (p: int)
    requires 0 <= k < |fl|
  {
    if k == 0 then s else fl[k - 1]
  }

  function Succ(s: int, fl: seq<int>, k: int): (n: int)
    requires 0 <= k < |fl|
  {
    if k == |fl| - 1 then s else fl[k + 1]
  }

  /** `links` holds a circular doubly-linked list through the sentinel s
      whose nodes, in `next` order, are fl.  The sentinel's `prev` is
      constrained only once the list is non-empty (mm.c:251, mm.c:96). */
  ghost predicate ListLinked(links: map<int, int>, s: int, fl: seq<int>)
  {
    Spaced(s, fl) &&
    s + ALIGNMENT in links && links[s + ALIGNMENT] == (if fl == [] then s else fl[0]) &&
    (fl != [] ==> s in links && links[s] == fl[|fl| - 1]) &&
    (forall k {:trigger NodeLinked(links, s, fl, k)} :: 0 <= k < |fl| ==> NodeLinked(links, s, fl, k))
  }

  /** Node fl[k] stores its neighbours: `prev` at fl[k], `next` at fl[k] + 8. */
  ghost predicate NodeLinked(links: map<int, int>, s: int, fl: seq<int>, k: int)
    requires 0 <= k < |fl|
  {
    fl[k] in links && links[fl[k]] == Pred(s, fl, k) &&
    fl[k] + ALIGNMENT in links && links[fl[k] + ALIGNMENT] == Succ(s, fl, k)
  }

  /** Spacing gives distinct nodes. */
  lemma SpacedDistinct(s: int, fl: seq<int>)
    requires Spaced(s, fl)
    ensures Distinct(fl) && s !in fl
  {
    forall i, j | 0 <= i < j < |fl| ensures fl[i] != fl[j] {
      assert Apart(fl[i], fl[j]);
    }
  }

  /** Any two distinct nodes of a spaced list, in either order, are apart. */
  lemma SpacedApart(s: int, fl: seq<int>, j: int, k: int)
    requires Spaced(s, fl) && 0 <= j < |fl| && 0 <= k < |fl| && j != k
    ensures Apart(fl[j], fl[k])
  {
    if j < k {
      assert Apart(fl[j], fl[k]);
    } else {
      assert Apart(fl[k], fl[j]);
    }
  }

  /** The four link writes of add_free_block(bp) (mm.c:87-100): bp goes
      to the head, between the sentinel and the old first node. */
  function AddLinks(links: map<int, int>, s: int, bp: int): (links': map<int, int>)
    requires s + ALIGNMENT in links
  {
    var next := links[s + ALIGNMENT];
    links[bp := s][bp + ALIGNMENT := next][next := bp][s + ALIGNMENT := bp]
  }

  /** The two link writes of remove_free_block(bp) (mm.c:104-109): the
      neighbours of bp are joined. */
  function RemoveLinks(links: map<int, int>, bp: int): (links': map<int, int>)
    requires bp in links && bp + ALIGNMENT in links
  {
    var prev := links[bp];
    var next := links[bp + ALIGNMENT];
    links[prev + ALIGNMENT := next][next := prev]
  }

  /** add_free_block puts bp at the head of the list. */
  lemma AddLinked(links: map<int, int>, s: int, fl: seq<int>, bp: int)
    requires ListLinked(links, s, fl) && Spaced(s, [bp] + fl)
    ensures ListLinked(AddLinks(links, s, bp), s, [bp] + fl)
  {
    var r, fl' := AddLinks(links, s, bp), [bp] + fl;
    assert s + MinBlock <= fl'[0];
    forall k | 0 <= k < |fl| ensures Apart(bp, fl[k]) {
      assert fl'[k + 1] == fl[k] && Apart(fl'[0], fl'[k + 1]);
    }
    forall k | 0 <= k < |fl'| ensures NodeLinked(r, s, fl', k) {
      if 0 < k {
        assert fl'[k] == fl[k - 1] && NodeLinked(links, s, fl, k - 1) && Apart(bp, fl[k - 1]);
        if 1 < k {
          assert Apart(fl[0], fl[k - 1]);
        }
        if k < |fl| {
          assert fl'[k + 1] == fl[k];
        }
      }
    }
    if fl != [] {
      assert NodeLinked(links, s, fl, 0);
    }
  }

  /** The list without its k-th node. */
  function Without(fl: seq<int>, k: int): (r: seq<int>)
    requires 0 <= k < |fl|
    ensures |r| == |fl| - 1
    ensures forall j :: 0 <= j < |r| ==> r[j] == fl[if j < k then j else j + 1]
  {
    fl[..k] + fl[k + 1..]
  }

  lemma WithoutSpaced(s: int, fl: seq<int>, k: int)
    requires Spaced(s, fl) && 0 <= k < |fl|
    ensures Spaced(s, Without(fl, k))
  {
    var fl' := Without(fl, k);
    forall a, b | 0 <= a < b < |fl'| ensures Apart(fl'[a], fl'[b]) {
      var a0, b0 := if a < k then a else a + 1, if b < k then b else b + 1;
      assert fl'[a] == fl[a0] && fl'[b] == fl[b0] && Apart(fl[a0], fl[b0]);
    }
  }

  /** Two nodes whose link pairs do not overlap. */
  predicate Apart(a: int, b: int)
  {
    a + MinBlock <= b || b + MinBlock <= a
  }

  /** What remove_free_block of fl[k] needs to know about the node fl[j0]
      and the neighbours of fl[k]: their links lie in separate words. */
  ghost predicate RemoveSeparated(s: int, fl: seq<int>, k: int, j0: int)
    requires 0 <= k < |fl| && 0 <= j0 < |fl|
  {
    s + MinBlock <= fl[j0] &&
    (0 < k ==> s + MinBlock <= fl[k - 1] && (j0 != k - 1 ==> Apart(fl[j0], fl[k - 1]))) &&
    (k + 1 < |fl| ==> s + MinBlock <= fl[k + 1] && (j0 != k + 1 ==> Apart(fl[j0], fl[k + 1]))) &&
    (0 < k && k + 1 < |fl| ==> Apart(fl[k - 1], fl[k + 1]))
  }

  /** After remove_free_block of the k-th node, every other node still
      points at its neighbours in the shortened list. */
  lemma RemoveNode(links: map<int, int>, s: int, fl: seq<int>, k: int, j: int)
    requires 0 <= k < |fl| && 0 <= j < |fl| - 1
    requires NodeLinked(links, s, fl, k)
    requires NodeLinked(links, s, fl, if j < k then j else j + 1)
    requires RemoveSeparated(s, fl, k, if j < k then j else j + 1)
    ensures NodeLinked(RemoveLinks(links, fl[k]), s, Without(fl, k), j)
  {
    var fl' := Without(fl, k);
    var j0 := if j < k then j else j + 1;
    var p, n := Pred(s, fl, k), Succ(s, fl, k);
    var r := RemoveLinks(links, fl[k]);
    var x := fl[j0];
    assert fl'[j] == x;
    assert Pred(s, fl', j) == if j0 == k + 1 then p else Pred(s, fl, j0) by {
      if 0 < j { assert fl'[j - 1] == fl[if j - 1 < k then j - 1 else j]; }
    }
    assert Succ(s, fl', j) == if j0 == k - 1 then n else Succ(s, fl, j0) by {
      if j + 1 < |fl'| { assert fl'[j + 1] == fl[if j + 1 < k then j + 1 else j + 2]; }
    }
    if j0 == k - 1 {
      assert x == p != n && p + ALIGNMENT != n;
    } else if j0 == k + 1 {
      assert x == n != p;
    } else {
      assert x != n && x != p + ALIGNMENT && x + ALIGNMENT != n && x != p;
    }
  }

  /** remove_free_block unlinks the k-th node and keeps the others in order. */
  lemma RemoveLinked(links: map<int, int>, s: int, fl: seq<int>, k: int)
    requires ListLinked(links, s, fl) && 0 <= k < |fl|
    ensures fl[k] in links && fl[k] + ALIGNMENT in links
    ensures ListLinked(RemoveLinks(links, fl[k]), s, Without(fl, k))
  {
    assert NodeLinked(links, s, fl, k);
    var fl' := Without(fl, k);
    WithoutSpaced(s, fl, k);
    forall j | 0 <= j < |fl'| ensures NodeLinked(RemoveLinks(links, fl[k]), s, fl', j) {
      var j0 := if j < k then j else j + 1;
      assert NodeLinked(links, s, fl, j0);
      if 0 < k && j0 != k - 1 { SpacedApart(s, fl, j0, k - 1); }
      if k + 1 < |fl| && j0 != k + 1 { SpacedApart(s, fl, j0, k + 1); }
      if 0 < k && k + 1 < |fl| { SpacedApart(s, fl, k - 1, k + 1); }
      RemoveNode(links, s, fl, k, j);
    }
    if fl' != [] {
      if k == |fl| - 1 {
        assert fl'[|fl'| - 1] == fl[k - 1];
      } else {
        assert fl'[|fl'| - 1] == fl[|fl| - 1];
        assert NodeLinked(links, s, fl, |fl| - 1);
        if k + 1 < |fl| - 1 {
          SpacedApart(s, fl, k + 1, |fl| - 1);
        }
      }
      if k == 0 {
        assert fl'[0] == fl[1];
      } else {
        assert fl'[0] == fl[0];
        assert NodeLinked(links, s, fl, 0);
      }
    }
  }

  /** remove_free_block of a listed node x leaves the list without x. */
  lemma RemoveErased(links: map<int, int>, s: int, fl: seq<int>, x: int)
    requires ListLinked(links, s, fl) && x in fl
    ensures x in links && x + ALIGNMENT in links
    ensures ListLinked(RemoveLinks(links, x), s, Erase(fl, x))
  {
    var k :| 0 <= k < |fl| && fl[k] == x;
    RemoveLinked(links, s, fl, k);
    SpacedDistinct(s, fl);
    EraseAt(fl, k);
  }

  /** The index of the first block, in list order, whose size is at least
      asize; |sizes| when there is none. */
  function FirstFit(sizes: seq<int>, asize: int): (k: nat)
    ensures k <= |sizes|
    ensures forall j :: 0 <= j < k ==> sizes[j] < asize
    ensures k < |sizes| ==> asize <= sizes[k]
  {
    if sizes == [] then 0
    else if asize <= sizes[0] then 0
    else 1 + FirstFit(sizes[1..], asize)
  }

  /** The search loop of find_fit (mm.c:223-230): follow `next` from the
      sentinel until a block of at least asize bytes or the sentinel again.
      The header of the current node is read before the sentinel test, so
      the sentinel's own header is read when the walk comes back to it. */
  method Walk(links: map<int, int>, tags: map<int, int>, s: int, asize: int,
              ghost fl: seq<int>, ghost sizes: seq<int>) returns (bp: int)
    requires ListLinked(links, s, fl)
    requires |sizes| == |fl|
    requires Hdbp(s) in tags
    requires forall k :: 0 <= k < |fl| ==> Hdbp(fl[k]) in tags && GetSize(tags[Hdbp(fl[k])]) == sizes[k]
    ensures bp == if FirstFit(sizes, asize) < |fl| then fl[FirstFit(sizes, asize)] else s
  {
    bp := links[s + ALIGNMENT];
    ghost var k := 0;
    while GetSize(tags[Hdbp(bp)]) < asize && bp != s
      invariant 0 <= k <= |fl|
      invariant bp == if k < |fl| then fl[k] else s
      invariant forall j :: 0 <= j < k ==> sizes[j] < asize
      decreases |fl| - k
    {
      assert k < |fl| && sizes[k] < asize;
      assert NodeLinked(links, s, fl, k);
      bp := links[bp + ALIGNMENT];
      k := k + 1;
    }
    assert k < |fl| ==> fl[k] != s;
    var f := FirstFit(sizes, asize);
    assert k < |fl| ==> asize <= sizes[k];
    assert f == k;
  }
}
