/**
  The read-only searches over the loaded contact list: the field filter of
  `search_contact` and the id lookup of `search_contact_by_id`. Both are an
  order-preserving filter, written once here as `Filter`.
 */
module Query {
  import opened Text
  import opened Contacts

  /** Keeps, in order, the elements of `s` that satisfy `p` (a loop appending matches). */
  function Filter<T>(s: seq<T>, p: T -> bool): (r: seq<T>)
    ensures |r| <= |s|
    ensures forall x :: x in r ==> x in s && p(x)
    ensures forall i :: 0 <= i < |s| && p(s[i]) ==> s[i] in r
    decreases |s|
  {
    if |s| == 0 then []
    else
      var rest := Filter(s[1..], p);
      assert forall i :: 1 <= i < |s| ==> s[i] == s[1..][i - 1];
      if p(s[0]) then [s[0]] + rest else rest
  }

  /**
    `idx` lists, in strictly increasing order, exactly the positions of `s`
    whose element satisfies `p`, and `r` holds the elements at those positions.
   */
  ghost predicate SelectedAt<T>(s: seq<T>, p: T -> bool, r: seq<T>, idx: seq<int>) {
    && |idx| == |r|
    && (forall k :: 0 <= k < |idx| ==> 0 <= idx[k] < |s| && r[k] == s[idx[k]])
    && (forall k, l :: 0 <= k < l < |idx| ==> idx[k] < idx[l])
    && (forall i :: 0 <= i < |s| ==> (p(s[i]) <==> i in idx))
  }

  /** Every position moved one place to the right. */
  function Shift(idx: seq<int>): (r: seq<int>)
    ensures |r| == |idx|
    ensures forall k :: 0 <= k < |idx| ==> r[k] == idx[k] + 1
  {
    seq(|idx|, k requires 0 <= k < |idx| => idx[k] + 1)
  }

  /** Positions after an element is put in front: the tail's move right by one, 0 joins if kept. */
  function ConsPositions(keep: bool, rest: seq<int>): seq<int> {
    (if keep then [0] else []) + Shift(rest)
  }

  lemma ConsPositionsElements<T>(x: T, tail: seq<T>, p: T -> bool, rt: seq<T>, rest: seq<int>)
    requires |rest| == |rt|
    requires forall k :: 0 <= k < |rest| ==> 0 <= rest[k] < |tail| && rt[k] == tail[rest[k]]
    ensures var idx, s, r := ConsPositions(p(x), rest), [x] + tail, (if p(x) then [x] else []) + rt;
      |idx| == |r| && forall k :: 0 <= k < |idx| ==> 0 <= idx[k] < |s| && r[k] == s[idx[k]]
  {
    var idx, s, r := ConsPositions(p(x), rest), [x] + tail, (if p(x) then [x] else []) + rt;
    var b := if p(x) then 1 else 0;
    forall k | 0 <= k < |idx|
      ensures 0 <= idx[k] < |s| && r[k] == s[idx[k]]
    {
      if k >= b {
        var m := k - b;
        assert idx[k] == rest[m] + 1;
        assert r[k] == rt[m];
        assert s[rest[m] + 1] == tail[rest[m]];
      }
    }
  }

  lemma ConsPositionsIncreasing(keep: bool, rest: seq<int>)
    requires forall k :: 0 <= k < |rest| ==> 0 <= rest[k]
    requires forall k, l :: 0 <= k < l < |rest| ==> rest[k] < rest[l]
    ensures var idx := ConsPositions(keep, rest);
      forall k, l :: 0 <= k < l < |idx| ==> idx[k] < idx[l]
  {
    var idx := ConsPositions(keep, rest);
    var b := if keep then 1 else 0;
    forall k, l | 0 <= k < l < |idx|
      ensures idx[k] < idx[l]
    {
      assert idx[l] == rest[l - b] + 1;
      if k >= b {
        assert idx[k] == rest[k - b] + 1;
      }
    }
  }

  lemma ConsPositionsMembership<T>(x: T, tail: seq<T>, p: T -> bool, rest: seq<int>)
    requires forall k :: 0 <= k < |rest| ==> 0 <= rest[k]
    requires forall i :: 0 <= i < |tail| ==> (p(tail[i]) <==> i in rest)
    ensures var idx, s := ConsPositions(p(x), rest), [x] + tail;
      forall i :: 0 <= i < |s| ==> (p(s[i]) <==> i in idx)
  {
    var idx, s := ConsPositions(p(x), rest), [x] + tail;
    forall i | 0 <= i < |s|
      ensures p(s[i]) <==> i in idx
    {
      if i == 0 {
        assert 0 !in Shift(rest);
      } else {
        assert s[i] == tail[i - 1];
        ShiftMembership(rest, i);
      }
    }
  }

  lemma ShiftMembership(rest: seq<int>, i: int)
    ensures i in Shift(rest) <==> i - 1 in rest
  {
    var shifted := Shift(rest);
    if i in shifted {
      var k :| 0 <= k < |shifted| && shifted[k] == i;
      assert rest[k] == i - 1;
    }
    if i - 1 in rest {
      var m :| 0 <= m < |rest| && rest[m] == i - 1;
      assert shifted[m] == i;
    }
  }

  /** The result of `Filter` is the order-preserving subsequence of the matching elements. */
  lemma {:induction false} FilterPositions<T>(s: seq<T>, p: T -> bool) returns (idx: seq<int>)
    ensures SelectedAt(s, p, Filter(s, p), idx)
    decreases |s|
  {
    if |s| == 0 {
      idx := [];
    } else {
      var rest := FilterPositions(s[1..], p);
      var tail, rt := s[1..], Filter(s[1..], p);
      idx := ConsPositions(p(s[0]), rest);
      ConsPositionsElements(s[0], tail, p, rt, rest);
      ConsPositionsIncreasing(p(s[0]), rest);
      ConsPositionsMembership(s[0], tail, p, rest);
      assert [s[0]] + tail == s;
      assert Filter(s, p) == (if p(s[0]) then [s[0]] else []) + Filter(s[1..], p);
    }
  }

  /**
    When the filter returns a single element, exactly one position matches:
    the basis for treating a one-element search result as "the" contact.
   */
  lemma SingleHitIsUnique<T>(s: seq<T>, p: T -> bool, i: int, j: int)
    requires |Filter(s, p)| == 1
    requires 0 <= i < |s| && 0 <= j < |s| && p(s[i]) && p(s[j])
    ensures i == j
  {
    var idx := FilterPositions(s, p);
    assert idx == [idx[0]];
    assert i in idx && j in idx;
  }

  /** A filter every element passes keeps the whole sequence. */
  lemma {:induction false} FilterAll<T>(s: seq<T>, p: T -> bool)
    requires forall i :: 0 <= i < |s| ==> p(s[i])
    ensures Filter(s, p) == s
    decreases |s|
  {
    if |s| != 0 {
      assert forall i :: 1 <= i < |s| ==> s[i] == s[1..][i - 1];
      FilterAll(s[1..], p);
    }
  }

  /** Two predicates that agree on every element select the same subsequence. */
  lemma {:induction false} FilterCongruent<T>(s: seq<T>, p: T -> bool, q: T -> bool)
    requires forall i :: 0 <= i < |s| ==> p(s[i]) == q(s[i])
    ensures Filter(s, p) == Filter(s, q)
    decreases |s|
  {
    if |s| != 0 {
      assert forall i :: 1 <= i < |s| ==> s[i] == s[1..][i - 1];
      FilterCongruent(s[1..], p, q);
    }
  }

  /** The test of `search_contact`: `value.lower() in contact[key].lower()`. */
  predicate FieldMatches(c: Contact, f: Field, needle: string)
    ensures FieldMatches(c, f, needle) <==> exists i :: OccursAt(Lower(Get(c, f)), Lower(needle), i)
    ensures needle == [] ==> FieldMatches(c, f, needle)
  {
    ContainsSpec(Lower(Get(c, f)), Lower(needle));
    Contains(Lower(Get(c, f)), Lower(needle))
  }

  /** The test of `search_contact_by_id`: `contact_id.lower() == contact["id"].lower()`. */
  predicate IdMatches(c: Contact, id: string)
    ensures IdMatches(c, id) <==>
      |id| == |c.id| && forall i :: 0 <= i < |id| ==> LowerChar(id[i]) == LowerChar(c.id[i])
  {
    Lower(id) == Lower(c.id)
  }

  /** The filter loop of `search_contact` on field `f`. */
  function SearchByField(cs: seq<Contact>, f: Field, needle: string): (r: seq<Contact>)
    ensures |r| <= |cs|
    ensures forall c :: c in r <==> c in cs && FieldMatches(c, f, needle)
  {
    Filter(cs, c => FieldMatches(c, f, needle))
  }

  /** The filter loop of `search_contact_by_id`. */
  function SearchById(cs: seq<Contact>, id: string): (r: seq<Contact>)
    ensures |r| <= |cs|
    ensures forall c :: c in r <==> c in cs && IdMatches(c, id)
  {
    Filter(cs, c => IdMatches(c, id))
  }

  /** Field search keeps exactly the matching contacts, in collection order. */
  lemma SearchByFieldOrdered(cs: seq<Contact>, f: Field, needle: string) returns (idx: seq<int>)
    ensures SelectedAt(cs, c => FieldMatches(c, f, needle), SearchByField(cs, f, needle), idx)
  {
    idx := FilterPositions(cs, c => FieldMatches(c, f, needle));
  }

  /** Id search keeps exactly the contacts whose id matches ignoring case, in collection order. */
  lemma SearchByIdOrdered(cs: seq<Contact>, id: string) returns (idx: seq<int>)
    ensures SelectedAt(cs, c => IdMatches(c, id), SearchById(cs, id), idx)
  {
    idx := FilterPositions(cs, c => IdMatches(c, id));
  }

  /** An empty search value matches every contact, so the whole list comes back. */
  lemma EmptyNeedleReturnsAll(cs: seq<Contact>, f: Field)
    ensures SearchByField(cs, f, "") == cs
  {
    FilterAll(cs, c => FieldMatches(c, f, ""));
  }

  /** Field search ignores the case of the search value. */
  lemma SearchIgnoresNeedleCase(cs: seq<Contact>, f: Field, needle: string, other: string)
    requires Lower(needle) == Lower(other)
    ensures SearchByField(cs, f, needle) == SearchByField(cs, f, other)
  {
    FilterCongruent(cs, c => FieldMatches(c, f, needle), c => FieldMatches(c, f, other));
  }

  /** Id search ignores the case of the id typed, so a one-off upper-cased id still finds the contact. */
  lemma SearchByIdIgnoresCase(cs: seq<Contact>, id: string)
    ensures SearchById(cs, id) == SearchById(cs, Lower(id))
  {
    LowerIdempotent(id);
    FilterCongruent(cs, c => IdMatches(c, id), c => IdMatches(c, Lower(id)));
  }

  /** Searching the name "ANA" finds a contact named "Ana". */
  lemma SearchExampleAna(c: Contact)
    requires c.name == "Ana"
    ensures SearchByField([c], Name, "ANA") == [c]
  {
  }
}
