/** Values shared by every part of the model: Python's `None`-or-value, the
    truthiness test the scripts apply to optional strings, and small string
    predicates. */
module Common {

  /** A value that may be Python's `None`. */
  datatype Option<+T> = None | Some(value: T) {
    /** `dict.get(key, default)` once the lookup has produced this value. */
    function GetOr(default: T): T {
      match this
      case Some(v) => v
      case None => default
    }
  }

  /** Python truthiness of an optional string: `None` and `""` are false. */
  predicate Truthy(s: Option<string>) {
    s.Some? && s.value != ""
  }

  /** `p` occurs in `s` starting at index `i`. */
  predicate HasAt(s: string, i: nat, p: string) {
    i + |p| <= |s| && s[i..i + |p|] == p
  }

  /** ASCII letters and digits: the class `[a-zA-Z0-9]`. */
  predicate IsAsciiAlnum(c: char) {
    ('a' <= c <= 'z') || ('A' <= c <= 'Z') || ('0' <= c <= '9')
  }

  /** The value of an `Option` as a list of zero or one element. */
  function Kept<T>(o: Option<T>): (r: seq<T>)
    ensures o.Some? ==> r == [o.value]
    ensures o.None? ==> r == []
  {
    match o
    case Some(v) => [v]
    case None => []
  }

  /** A loop that appends `f(x)` for every `x` of `s` for which `f` yields a value. */
  function FilterMap<T, U>(s: seq<T>, f: T -> Option<U>): (r: seq<U>)
    decreases |s|
    ensures |r| <= |s|
  {
    if s == [] then [] else FilterMap(s[..|s| - 1], f) + Kept(f(s[|s| - 1]))
  }

  /** The positions of `s` for which `f` yields a value: each of them once,
      in increasing order, and no other. */
  function KeptIndices<T, U>(s: seq<T>, f: T -> Option<U>): (r: seq<nat>)
    decreases |s|
    ensures forall k :: 0 <= k < |r| ==> r[k] < |s| && f(s[r[k]]).Some?
    ensures forall k, l :: 0 <= k < l < |r| ==> r[k] < r[l]
    ensures forall i :: 0 <= i < |s| ==> (f(s[i]).Some? <==> i in r)
  {
    if s == [] then []
    else
      var n := |s| - 1;
      var init := s[..n];
      var r0 := KeptIndices(init, f);
      assert forall i :: 0 <= i < n ==> init[i] == s[i];
      r0 + (if f(s[n]).Some? then [n] else [])
  }

  /** `FilterMap` keeps the order of `s`: its k-th element is what `f` yields
      at the k-th position where it yields anything (those positions are
      `KeptIndices(s, f)`, increasing and complete). */
  lemma {:induction false} FilterMapIsOrderedFilter<T, U>(s: seq<T>, f: T -> Option<U>)
    ensures |FilterMap(s, f)| == |KeptIndices(s, f)|
    ensures forall k :: 0 <= k < |KeptIndices(s, f)| ==>
              f(s[KeptIndices(s, f)[k]]) == Some(FilterMap(s, f)[k])
    decreases |s|
  {
    if s != [] {
      var n := |s| - 1;
      var init := s[..n];
      FilterMapIsOrderedFilter(init, f);
      var out0, idx0 := FilterMap(init, f), KeptIndices(init, f);
      var out, idx := FilterMap(s, f), KeptIndices(s, f);
      assert out == out0 + Kept(f(s[n]));
      assert idx == idx0 + (if f(s[n]).Some? then [n] else []);
      forall k | 0 <= k < |idx|
        ensures f(s[idx[k]]) == Some(out[k])
      {
        if k < |idx0| {
          assert idx[k] == idx0[k] && out[k] == out0[k];
          assert s[idx0[k]] == init[idx0[k]];
        }
      }
    }
  }

  /** One more element of `s` adds what `f` yields for it. */
  lemma FilterMapSnoc<T, U>(s: seq<T>, i: nat, f: T -> Option<U>)
    requires i < |s|
    ensures FilterMap(s[..i + 1], f) == FilterMap(s[..i], f) + Kept(f(s[i]))
  {
    assert s[..i + 1][..i] == s[..i];
  }

  /** Elements are handled independently: `FilterMap` distributes over `+`. */
  lemma {:induction false} FilterMapAppend<T, U>(a: seq<T>, b: seq<T>, f: T -> Option<U>)
    ensures FilterMap(a + b, f) == FilterMap(a, f) + FilterMap(b, f)
    decreases |b|
  {
    if b == [] {
      assert a + b == a;
    } else {
      var n := |b| - 1;
      assert (a + b)[..|a + b| - 1] == a + b[..n];
      FilterMapAppend(a, b[..n], f);
    }
  }

  /** An element for which `f` yields nothing leaves no trace in `FilterMap`. */
  lemma FilterMapSkip<T, U>(a: seq<T>, x: T, b: seq<T>, f: T -> Option<U>)
    requires f(x).None?
    ensures FilterMap(a + [x] + b, f) == FilterMap(a + b, f)
  {
    var left := a + [x];
    FilterMapAppend(left, b, f);
    FilterMapAppend(a, [x], f);
    FilterMapAppend(a, b, f);
    assert FilterMap([x], f) == [];
    assert FilterMap(left, f) == FilterMap(a, f);
    assert FilterMap(left + b, f) == FilterMap(a + b, f);
  }
}
