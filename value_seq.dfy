/** The abstract view of a list: the sequence of values its nodes hold,
    head to tail, and what each list operation does to that sequence. */
module ValueSeq {

  /** Position of the first occurrence of `v` in `s`, or `|s|` when `v` does not occur.
      This is the position `find` stops at and the node `remove` splices out. */
  function IndexOf(s: seq<int>, v: int): (i: nat)
    ensures i <= |s|
    ensures i < |s| ==> s[i] == v
    ensures forall j :: 0 <= j < i ==> s[j] != v
  {
    if s == [] then 0
    else if s[0] == v then 0
    else 1 + IndexOf(s[1..], v)
  }

  /** The search runs off the end exactly when `v` does not occur. */
  lemma IndexOfAbsent(s: seq<int>, v: int)
    ensures IndexOf(s, v) == |s| <==> v !in s
  {
  }

  /** `s` without its element at position `i`; `s` itself when `i` is past the end. */
  function Without<T>(s: seq<T>, i: nat): (r: seq<T>)
    ensures i < |s| ==> |r| == |s| - 1 && s == r[..i] + [s[i]] + r[i..]
    ensures |s| <= i ==> r == s
  {
    if i < |s| then
      assert s == s[..i] + [s[i]] + s[i + 1..];
      s[..i] + s[i + 1..]
    else s
  }

  /** Dropping position 0 leaves the tail. */
  lemma WithoutFirst<T>(s: seq<T>)
    requires s != []
    ensures Without(s, 0) == s[1..]
  {
    assert s[..0] + s[1..] == s[1..];
  }

  /** `s` with its first occurrence of `v` deleted, or `s` unchanged when `v` does not occur. */
  function RemoveFirst(s: seq<int>, v: int): seq<int>
  {
    Without(s, IndexOf(s, v))
  }

  /** Deleting the first occurrence leaves `s` alone exactly when `v` is absent; otherwise
      the result is one shorter, the part before the deleted position holds no `v`, and
      putting `v` back at that position restores `s`. */
  lemma RemoveFirstSpec(s: seq<int>, v: int)
    ensures v !in s <==> RemoveFirst(s, v) == s
    ensures v in s ==> var i := IndexOf(s, v); var r := RemoveFirst(s, v);
      |r| == |s| - 1 && v !in r[..i] && s == r[..i] + [v] + r[i..]
  {
    IndexOfAbsent(s, v);
    var i := IndexOf(s, v);
    if i < |s| {
      assert RemoveFirst(s, v)[..i] == s[..i];
    }
  }

  /** Exactly one `v` goes, when there is one, and nothing else. */
  lemma RemoveFirstMultiset(s: seq<int>, v: int)
    ensures multiset(RemoveFirst(s, v)) == multiset(s) - multiset{v}
  {
    RemoveFirstSpec(s, v);
    var i := IndexOf(s, v);
    var r := RemoveFirst(s, v);
    if i < |s| {
      calc {
        multiset(s);
        multiset(r[..i] + [v] + r[i..]);
        multiset(r[..i]) + multiset{v} + multiset(r[i..]);
        { assert r == r[..i] + r[i..]; }
        multiset(r) + multiset{v};
      }
    } else {
      assert multiset(s)[v] == 0;
    }
  }

  /** Removing a value just prepended gives back the list it was prepended to,
      whether or not that value already occurs further on. */
  lemma {:induction false} RemoveUndoesAddFront(s: seq<int>, v: int)
    ensures RemoveFirst([v] + s, v) == s
  {
    assert IndexOf([v] + s, v) == 0;
    assert ([v] + s)[1..] == s;
  }

  /** Appending `w` leaves the first occurrence of any value already present where it was;
      a value not present before is found at the new tail exactly when it is `w`. */
  lemma {:induction false} IndexOfAppend(s: seq<int>, v: int, w: int)
    ensures IndexOf(s + [w], v) == if v in s then IndexOf(s, v) else if v == w then |s| else |s| + 1
  {
    if s == [] {
      assert [] + [w] == [w];
    } else {
      assert (s + [w])[1..] == s[1..] + [w];
      if s[0] != v {
        IndexOfAppend(s[1..], v, w);
      }
    }
  }

  /** Deleting the head value 1 from [1, 3, 4, 5] gives [3, 4, 5]. */
  lemma RemoveHeadExample()
    ensures RemoveFirst([1, 3, 4, 5], 1) == [3, 4, 5]
  {
    assert IndexOf([1, 3, 4, 5], 1) == 0;
    assert [1, 3, 4, 5][1..] == [3, 4, 5];
  }

  /** Deleting 2 from [1, 2, 3, 4, 5] gives [1, 3, 4, 5]. */
  lemma RemoveFirstExample()
    ensures RemoveFirst([1, 2, 3, 4, 5], 2) == [1, 3, 4, 5]
  {
    var s := [1, 2, 3, 4, 5];
    assert IndexOf(s, 2) == 1 by {
      assert s[1..] == [2, 3, 4, 5];
    }
    assert s[..1] + s[2..] == [1, 3, 4, 5];
  }
}
