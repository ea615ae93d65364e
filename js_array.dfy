/** The array methods of JavaScript used by the model (filter, map), on sequences. */
module JsArray {
  import opened Wrappers

  /** Array.prototype.filter: the elements that pass, in their order. */
  function Filter<T>(s: seq<T>, keep: T -> bool): seq<T> {
    if s == [] then []
    else (if keep(s[0]) then [s[0]] else []) + Filter(s[1..], keep)
  }

  /** The filter keeps exactly the elements that pass. */
  lemma {:induction false} FilterMembers<T>(s: seq<T>, keep: T -> bool)
    ensures forall x :: x in Filter(s, keep) <==> x in s && keep(x)
    ensures |Filter(s, keep)| <= |s|
  {
    if s != [] {
      FilterMembers(s[1..], keep);
      assert forall x :: x in s <==> x == s[0] || x in s[1..];
    }
  }

  /** The filter keeps the order: it distributes over appending. */
  lemma {:induction false} FilterAppend<T>(s: seq<T>, t: seq<T>, keep: T -> bool)
    ensures Filter(s + t, keep) == Filter(s, keep) + Filter(t, keep)
  {
    if s != [] {
      FilterAppend(s[1..], t, keep);
      assert (s + t)[1..] == s[1..] + t;
    } else {
      assert s + t == t;
    }
  }

  /** Array.prototype.map with a function of the element alone. */
  function Map<T, U>(s: seq<T>, f: T -> U): (r: seq<U>)
    ensures |r| == |s| && forall i :: 0 <= i < |s| ==> r[i] == f(s[i])
  {
    seq(|s|, i requires 0 <= i < |s| => f(s[i]))
  }

  /** The values of the elements f keeps, in order. */
  function Kept<T, U>(s: seq<T>, f: T --> Option<U>): seq<U>
    requires forall x :: x in s ==> f.requires(x)
  {
    if s == [] then []
    else
      var n := |s| - 1;
      Kept(s[..n], f) + (if f(s[n]).Some? then [f(s[n]).value] else [])
  }

  /** The kept values are exactly the values f gives some element, at most one per element. */
  lemma KeptMembers<T, U>(s: seq<T>, f: T --> Option<U>)
    requires forall x :: x in s ==> f.requires(x)
    ensures |Kept(s, f)| <= |s|
    ensures forall y :: y in Kept(s, f) <==> exists j :: 0 <= j < |s| && f(s[j]) == Some(y)
  {
    KeptSound(s, f);
    KeptComplete(s, f);
  }

  /** Every kept value is the value f gives some element. */
  lemma {:induction false} KeptSound<T, U>(s: seq<T>, f: T --> Option<U>)
    requires forall x :: x in s ==> f.requires(x)
    ensures |Kept(s, f)| <= |s|
    ensures forall y :: y in Kept(s, f) ==> exists j :: 0 <= j < |s| && f(s[j]) == Some(y)
  {
    if s != [] {
      var n := |s| - 1;
      var init := s[..n];
      assert forall x :: x in init ==> x in s;
      KeptSound(init, f);
      forall y | y in Kept(s, f) ensures exists j :: 0 <= j < |s| && f(s[j]) == Some(y) {
        if y in Kept(init, f) {
          var j :| 0 <= j < |init| && f(init[j]) == Some(y);
          assert s[j] == init[j];
        } else {
          assert f(s[n]) == Some(y);
        }
      }
    }
  }

  /** Every value f gives an element is kept. */
  lemma {:induction false} KeptComplete<T, U>(s: seq<T>, f: T --> Option<U>)
    requires forall x :: x in s ==> f.requires(x)
    ensures forall y, j :: 0 <= j < |s| && f(s[j]) == Some(y) ==> y in Kept(s, f)
  {
    if s != [] {
      var n := |s| - 1;
      var init := s[..n];
      assert forall x :: x in init ==> x in s;
      KeptComplete(init, f);
      forall y, j | 0 <= j < |s| && f(s[j]) == Some(y) ensures y in Kept(s, f) {
        if j < n {
          assert init[j] == s[j];
          assert y in Kept(init, f);
        }
      }
    }
  }
}
