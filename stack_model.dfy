/**
 * A value-level view of the Stack: the elements its dynamic array holds
 * (the array's first `size` slots) and the top-of-stack index `pos`.
 * Push and Pop on the Stack class are specified by PushView and PopView;
 * the laws about sequences of operations are proved here.
 */
module StackModel {

  datatype StackView = StackView(elems: seq<real>, pos: int)

  /** The index invariant: -1 <= pos <= size - 1. */
  predicate ViewOk(s: StackView)
  {
    -1 <= s.pos <= |s.elems| - 1
  }

  /** The values a caller can still pop, bottom first. */
  function Live(s: StackView): (r: seq<real>)
    requires ViewOk(s)
    ensures |r| == s.pos + 1 && r <= s.elems
  {
    s.elems[..s.pos + 1]
  }

  /** A successful push: the array appends at its size, and pos moves up by one. */
  function PushView(s: StackView, v: real): (r: StackView)
    ensures ViewOk(s) ==> ViewOk(r)
    ensures |r.elems| == |s.elems| + 1 && r.elems[|s.elems|] == v && r.pos == s.pos + 1
    ensures s.elems <= r.elems
  {
    StackView(s.elems + [v], s.pos + 1)
  }

  /**
   * A pop: on an empty stack 0 and no change; otherwise the element at pos,
   * with pos moved down by one and the array untouched.
   */
  function PopView(s: StackView): (r: (StackView, real))
    requires ViewOk(s)
    ensures ViewOk(r.0) && r.0.elems == s.elems
    ensures s.pos < 0 ==> r == (s, 0.0)
    ensures 0 <= s.pos ==> r.0.pos == s.pos - 1 && r.1 == s.elems[s.pos]
  {
    if s.pos < 0 then (s, 0.0) else (StackView(s.elems, s.pos - 1), s.elems[s.pos])
  }

  /** A pop on a non-empty stack removes exactly the last live value and returns it. */
  lemma PopTakesLastLive(s: StackView)
    requires ViewOk(s) && 0 <= s.pos
    ensures Live(s) == Live(PopView(s).0) + [PopView(s).1]
  {
    assert s.elems[..s.pos + 1] == s.elems[..s.pos] + [s.elems[s.pos]];
  }

  /** Pushing vs[0], vs[1], ... in order, every push succeeding, appends vs and raises pos by |vs|. */
  function PushAll(s: StackView, vs: seq<real>): (r: StackView)
    ensures r.elems == s.elems + vs && r.pos == s.pos + |vs|
    ensures ViewOk(s) ==> ViewOk(r)
    decreases |vs|
  {
    if vs == [] then s
    else
      assert s.elems + [vs[0]] + vs[1..] == s.elems + vs;
      PushAll(PushView(s, vs[0]), vs[1..])
  }

  /** Popping n times: the final view and the values returned, in order. */
  function PopN(s: StackView, n: nat): (StackView, seq<real>)
    requires ViewOk(s)
    decreases n
  {
    if n == 0 then (s, [])
    else
      var first := PopView(s);
      var rest := PopN(first.0, n - 1);
      (rest.0, [first.1] + rest.1)
  }

  function Reverse(s: seq<real>): (r: seq<real>)
    ensures |r| == |s|
  {
    if s == [] then [] else Reverse(s[1..]) + [s[0]]
  }

  /** Reverse puts the i-th value from the end at index i. */
  lemma {:induction false} ReverseAt(s: seq<real>, i: int)
    requires 0 <= i < |s|
    ensures Reverse(s)[i] == s[|s| - 1 - i]
  {
    if i < |s| - 1 {
      ReverseAt(s[1..], i);
    }
  }

  lemma {:induction false} ReverseSnoc(a: seq<real>, x: real)
    ensures Reverse(a + [x]) == [x] + Reverse(a)
  {
    if a != [] {
      assert (a + [x])[1..] == a[1..] + [x];
      ReverseSnoc(a[1..], x);
    }
  }

  /** n pops from a stack with at least n live values return its top n values, topmost first. */
  lemma {:induction false} PopNReturnsTopReversed(s: StackView, n: nat)
    requires ViewOk(s) && n <= s.pos + 1
    ensures PopN(s, n).0 == StackView(s.elems, s.pos - n)
    ensures PopN(s, n).1 == Reverse(s.elems[s.pos + 1 - n..s.pos + 1])
    decreases n
  {
    if n == 0 {
      assert s.elems[s.pos + 1..s.pos + 1] == [];
    } else {
      var lo, top := s.pos + 1 - n, s.elems[s.pos];
      var s1 := StackView(s.elems, s.pos - 1);
      assert PopView(s) == (s1, top);
      var rest := PopN(s1, n - 1);
      assert PopN(s, n) == (rest.0, [top] + rest.1);
      PopNReturnsTopReversed(s1, n - 1);
      assert s1.pos + 1 - (n - 1) == lo && s1.pos + 1 == s.pos;
      var below := s.elems[lo..s.pos];
      assert rest.1 == Reverse(below);
      assert s.elems[lo..s.pos + 1] == below + [top];
      ReverseSnoc(below, top);
      assert PopN(s, n).1 == Reverse(below + [top]);
    }
  }

  /**
   * The LIFO law: from a view whose pos is the array's last index (as after
   * StackInit), pushing v1..vn with no pop in between and then popping n
   * times returns vn..v1 and restores pos.
   */
  lemma {:induction false} PushesThenPopsReverse(s: StackView, vs: seq<real>)
    requires ViewOk(s) && s.pos == |s.elems| - 1
    ensures PopN(PushAll(s, vs), |vs|) == (StackView(s.elems + vs, s.pos), Reverse(vs))
  {
    var t := PushAll(s, vs);
    var n := |s.elems|;
    assert t.elems == s.elems + vs && t.pos + 1 - |vs| == n && t.pos + 1 == n + |vs|;
    assert t.elems[n..n + |vs|] == vs;
    PopNReturnsTopReversed(t, |vs|);
  }

  /**
   * As written, Pop never shrinks the array, so a Push after a Pop appends
   * past the stale slot while pos returns to it: the next Peek/Pop yields the
   * popped value again, not the one just pushed.
   */
  lemma PopThenPushReadsStale(s: StackView, v: real)
    requires ViewOk(s) && 0 <= s.pos
    ensures var t := PushView(PopView(s).0, v);
      t.pos == s.pos && PopView(t).1 == s.elems[s.pos] && t.elems[|s.elems|] == v &&
      t.pos < |t.elems| - 1
  {
  }
}
