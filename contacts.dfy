/** The payload of a list node and the matching rule that `LinkedList.search` applies to it. */
module Contacts {

  /** What a node holds. The application only ever stores dictionaries with a `name` and an
      `email` entry (a contact); `Other` stands for any non-dictionary payload, which the search
      skips. */
  datatype Data = Contact(name: string, email: string) | Other

  predicate IsUpper(c: char) {
    'A' <= c <= 'Z'
  }

  predicate HasUpper(s: string) {
    exists i :: 0 <= i < |s| && IsUpper(s[i])
  }

  /** Lower-casing of one character, restricted to ASCII letters. */
  function LowerChar(c: char): (r: char)
    ensures !IsUpper(r)
    ensures IsUpper(c) ==> r as int == c as int + 32
    ensures !IsUpper(c) ==> r == c
  {
    if IsUpper(c) then (c as int + 32) as char else c
  }

  /** `str.lower()` on ASCII: every character is lower-cased in place. */
  function Lower(s: string): (r: string)
    ensures |r| == |s|
    ensures forall i :: 0 <= i < |s| ==> r[i] == LowerChar(s[i])
  {
    if s == [] then [] else [LowerChar(s[0])] + Lower(s[1..])
  }

  lemma LowerHasNoUpper(s: string)
    ensures !HasUpper(Lower(s))
  {
  }

  /** `q` occurs in `s` starting at position `i`. */
  ghost predicate OccursAt(q: string, s: string, i: int) {
    0 <= i && i + |q| <= |s| && s[i..i + |q|] == q
  }

  /** Python's `q in s` for strings: `q` is a contiguous piece of `s`. */
  ghost predicate IsSubstring(q: string, s: string) {
    exists i :: OccursAt(q, s, i)
  }

  lemma OccursShift(q: string, s: string, i: int)
    requires s != [] && 0 <= i
    ensures OccursAt(q, s[1..], i) <==> OccursAt(q, s, i + 1)
  {
  }

  /** Executable substring test, scanning `s` from the left. */
  function Contains(q: string, s: string): bool
    decreases |s|
  {
    if |q| > |s| then false
    else if s[..|q|] == q then true
    else Contains(q, s[1..])
  }

  /** The left-to-right scan answers exactly Python's `q in s`. */
  lemma {:induction false} ContainsIsSubstring(q: string, s: string)
    ensures Contains(q, s) <==> IsSubstring(q, s)
    decreases |s|
  {
    if |q| > |s| {
      assert forall i :: !OccursAt(q, s, i);
    } else if s[..|q|] == q {
      assert OccursAt(q, s, 0);
    } else {
      ContainsIsSubstring(q, s[1..]);
      if Contains(q, s[1..]) {
        var i :| OccursAt(q, s[1..], i);
        OccursShift(q, s, i);
      }
      if IsSubstring(q, s) {
        var i :| OccursAt(q, s, i);
        assert i != 0;
        OccursShift(q, s, i - 1);
      }
    }
  }

  /** The test of `LinkedList.search` for one node: the payload is a contact and the query
      occurs in its lower-cased name or in its lower-cased email. The query itself is not
      lower-cased here. */
  predicate Matches(q: string, d: Data) {
    d.Contact? && (Contains(q, Lower(d.name)) || Contains(q, Lower(d.email)))
  }

  /** The payloads of `s` that match `q`, in their original order. */
  function Filter(q: string, s: seq<Data>): (r: seq<Data>)
    ensures |r| <= |s|
    ensures forall x :: x in r <==> x in s && Matches(q, x)
  {
    if s == [] then []
    else
      var init := s[..|s| - 1];
      assert s == init + [s[|s| - 1]];
      Filter(q, init) + (if Matches(q, s[|s| - 1]) then [s[|s| - 1]] else [])
  }

  /** The empty query occurs in every string, so it matches every contact and nothing else. */
  lemma EmptyQueryMatchesContacts(d: Data)
    ensures Matches("", d) <==> d.Contact?
  {
  }

  /** With the empty query the search returns the whole list when it holds only contacts. */
  lemma {:induction false} EmptyQueryKeepsAllContacts(s: seq<Data>)
    requires forall i :: 0 <= i < |s| ==> s[i].Contact?
    ensures Filter("", s) == s
  {
    if s != [] {
      EmptyQueryKeepsAllContacts(s[..|s| - 1]);
      EmptyQueryMatchesContacts(s[|s| - 1]);
      assert s == s[..|s| - 1] + [s[|s| - 1]];
    }
  }

  ghost predicate StrictlyIncreasing(idx: seq<nat>) {
    forall a, b :: 0 <= a < b < |idx| ==> idx[a] < idx[b]
  }

  lemma IncreasingSnoc(idx: seq<nat>, n: nat)
    requires StrictlyIncreasing(idx)
    requires forall k :: 0 <= k < |idx| ==> idx[k] < n
    ensures StrictlyIncreasing(idx + [n])
  {
  }

  /** Unfolding `Filter` at the last payload. */
  lemma FilterSnoc(q: string, s: seq<Data>, x: Data)
    ensures Filter(q, s + [x]) == Filter(q, s) + (if Matches(q, x) then [x] else [])
  {
  }

  /** The positions of `s` whose payload matches `q`, in increasing order. */
  ghost function Positions(q: string, s: seq<Data>): (p: seq<nat>)
    ensures forall k :: 0 <= k < |p| ==> p[k] < |s|
  {
    if s == [] then []
    else Positions(q, s[..|s| - 1]) + (if Matches(q, s[|s| - 1]) then [|s| - 1] else [])
  }

  lemma {:induction false} PositionsIncreasing(q: string, s: seq<Data>)
    ensures StrictlyIncreasing(Positions(q, s))
  {
    if s != [] {
      var n := |s| - 1;
      PositionsIncreasing(q, s[..n]);
      if Matches(q, s[n]) {
        IncreasingSnoc(Positions(q, s[..n]), n);
      }
    }
  }

  lemma {:induction false} PositionsSelect(q: string, s: seq<Data>)
    ensures |Positions(q, s)| == |Filter(q, s)|
    ensures forall k :: 0 <= k < |Positions(q, s)| ==> s[Positions(q, s)[k]] == Filter(q, s)[k]
  {
    if s != [] {
      var n := |s| - 1;
      var init := s[..n];
      PositionsSelect(q, init);
      assert forall j :: 0 <= j < n ==> s[j] == init[j];
      assert s == init + [s[n]];
      FilterSnoc(q, init, s[n]);
    }
  }

  lemma {:induction false} PositionsComplete(q: string, s: seq<Data>)
    ensures forall i :: 0 <= i < |s| && Matches(q, s[i]) ==> i in Positions(q, s)
  {
    if s != [] {
      var n := |s| - 1;
      var init := s[..n];
      PositionsComplete(q, init);
      forall i | 0 <= i < |s| && Matches(q, s[i])
        ensures i in Positions(q, s)
      {
        if i < n {
          assert init[i] == s[i];
          assert i in Positions(q, init);
        }
      }
    }
  }

  /** The search result is a subsequence of its input: the positions it keeps are increasing,
      and every matching position is among them. */
  lemma FilterKeepsOrder(q: string, s: seq<Data>) returns (idx: seq<nat>)
    ensures |idx| == |Filter(q, s)|
    ensures StrictlyIncreasing(idx)
    ensures forall k :: 0 <= k < |idx| ==> idx[k] < |s| && s[idx[k]] == Filter(q, s)[k]
    ensures forall i :: 0 <= i < |s| && Matches(q, s[i]) ==> i in idx
  {
    idx := Positions(q, s);
    PositionsIncreasing(q, s);
    PositionsSelect(q, s);
    PositionsComplete(q, s);
  }

  /** A query holding an upper-case letter never matches: the search lower-cases the payload
      but not the query. */
  lemma UpperCaseQueryNeverMatches(q: string, d: Data)
    requires HasUpper(q)
    ensures !Matches(q, d)
  {
    if d.Contact? {
      ContainsIsSubstring(q, Lower(d.name));
      ContainsIsSubstring(q, Lower(d.email));
      NoUpperNoMatch(q, Lower(d.name));
      NoUpperNoMatch(q, Lower(d.email));
    }
  }

  lemma NoUpperNoMatch(q: string, s: string)
    requires HasUpper(q) && !HasUpper(s)
    ensures !IsSubstring(q, s)
  {
  }
}
