/** Generic facts about sequences used by both sides of the protocol. */
module Sequences {
  import opened Wrappers

  /** The last element of a non-empty sequence. */
  function Last<T>(s: seq<T>): T
    requires s != []
  {
    s[|s| - 1]
  }

  /** All but the last element of a non-empty sequence. */
  function Init<T>(s: seq<T>): seq<T>
    requires s != []
  {
    s[..|s| - 1]
  }

  /** `Init` and `Last` split off the final element. */
  lemma InitLast<T>(s: seq<T>)
    requires s != []
    ensures Init(s) + [Last(s)] == s
  {
  }

  /** `Init` and `Last` of a concatenation come from its right part. */
  lemma InitLastAppend<T>(a: seq<T>, b: seq<T>)
    requires b != []
    ensures Init(a + b) == a + Init(b) && Last(a + b) == Last(b)
  {
  }

  /** `Init` and `Last` undo appending one element. */
  lemma InitLastSnoc<T>(s: seq<T>, x: T)
    ensures Init(s + [x]) == s && Last(s + [x]) == x
  {
  }

  /** The results of `f` on the elements of `s` where it gives one, in order:
      the shape of a loop that appends to a list only for some elements. */
  function FilterMap<T, U>(f: T -> Option<U>, s: seq<T>): seq<U> {
    if s == [] then []
    else FilterMap(f, Init(s)) + match f(Last(s)) {
      case Some(u) => [u]
      case None => []
    }
  }

  /** Filtering distributes over concatenation, so the kept results keep
      their relative order. */
  lemma {:induction false} FilterMapAppend<T, U>(f: T -> Option<U>, a: seq<T>, b: seq<T>)
    ensures FilterMap(f, a + b) == FilterMap(f, a) + FilterMap(f, b)
  {
    if b == [] {
      assert a + b == a;
    } else {
      FilterMapAppend(f, a, Init(b));
      assert Init(a + b) == a + Init(b);
    }
  }

  /** A single element contributes its result, or nothing. */
  lemma FilterMapSingle<T, U>(f: T -> Option<U>, x: T)
    ensures FilterMap(f, [x]) == if f(x).Some? then [f(x).value] else []
  {
    assert Init([x]) == [];
  }

  /** Exactly the results of `f` are kept: every kept value is the result for
      some element, and every element's result is kept. */
  lemma {:induction false} FilterMapMembers<T, U>(f: T -> Option<U>, s: seq<T>)
    ensures forall u :: u in FilterMap(f, s) ==> exists i :: 0 <= i < |s| && f(s[i]) == Some(u)
    ensures forall i :: 0 <= i < |s| && f(s[i]).Some? ==> f(s[i]).value in FilterMap(f, s)
  {
    if s != [] {
      FilterMapMembers(f, Init(s));
      forall u | u in FilterMap(f, s)
        ensures exists i :: 0 <= i < |s| && f(s[i]) == Some(u)
      {
        if u !in FilterMap(f, Init(s)) {
          assert f(s[|s| - 1]) == Some(u);
        } else {
          var i :| 0 <= i < |Init(s)| && f(Init(s)[i]) == Some(u);
          assert s[i] == Init(s)[i];
        }
      }
      forall i | 0 <= i < |s| && f(s[i]).Some?
        ensures f(s[i]).value in FilterMap(f, s)
      {
        if i < |s| - 1 {
          assert Init(s)[i] == s[i];
        }
      }
    }
  }

  /** Nothing is kept exactly when `f` gives no result anywhere. */
  lemma FilterMapEmptyIff<T, U>(f: T -> Option<U>, s: seq<T>)
    ensures FilterMap(f, s) == [] <==> forall i :: 0 <= i < |s| ==> f(s[i]).None?
  {
    FilterMapMembers(f, s);
    if FilterMap(f, s) != [] {
      assert FilterMap(f, s)[0] in FilterMap(f, s);
    }
  }
}
