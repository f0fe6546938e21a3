// The rules that votes cite: internal/safenet/rules.go, and the rules that a
// ruling document cites, which internal/corpus/corpus.go lists the same way.
module Rules {
  import opened EthTypes
  import opened SafenetTypes

  const COMMA: Byte := 0x2c

  // How the text of a rule is recognized: trimming spaces, and the pattern of rule
  // identifiers, which the model leaves open.
  datatype RuleText = RuleText(trim: Bytes -> Bytes, isRule: Bytes -> bool)

  // The parts of text between commas: one more than there are commas.
  function Split(text: Bytes): (parts: seq<Bytes>)
    ensures parts != []
  {
    if text == [] then [[]]
    else
      var rest := Split(text[1..]);
      if text[0] == COMMA then [[]] + rest else [[text[0]] + rest[0]] + rest[1..]
  }

  // The rule identifiers among the parts of a reason, in order, with repeats.
  function Citations(rt: RuleText, parts: seq<Bytes>): (rules: seq<Bytes>) {
    if parts == [] then []
    else
      var last := parts[|parts| - 1];
      Citations(rt, parts[..|parts| - 1]) + if rt.isRule(rt.trim(last)) then [rt.trim(last)] else []
  }

  // s without the repeats of an element after its first appearance.
  function Distinct<T(==,!new)>(s: seq<T>): (d: seq<T>)
    ensures forall x :: x in d <==> x in s
  {
    if s == [] then []
    else
      var before, last := Distinct(s[..|s| - 1]), s[|s| - 1];
      if last in before then before else before + [last]
  }

  predicate NoRepeats<T(==)>(s: seq<T>) {
    forall i, j :: 0 <= i < j < |s| ==> s[i] != s[j]
  }

  lemma {:induction false} DistinctHasNoRepeats<T(!new)>(s: seq<T>)
    ensures NoRepeats(Distinct(s))
  {
    if s != [] {
      DistinctHasNoRepeats(s[..|s| - 1]);
    }
  }

  // Where x first is in s.
  function FirstIndex<T(==)>(s: seq<T>, x: T): (i: nat)
    requires x in s
    ensures i < |s| && s[i] == x && forall k :: 0 <= k < i ==> s[k] != x
  {
    if s[0] == x then 0 else 1 + FirstIndex(s[1..], x)
  }

  // d has what s has, without repeats, in the order of first appearance.
  predicate AreFirsts<T(==,!new)>(d: seq<T>, s: seq<T>) {
    && NoRepeats(d) && (forall x :: x in d ==> x in s) && (forall x :: x in s ==> x in d)
    && forall i, j :: 0 <= i < j < |d| ==> FirstIndex(s, d[i]) < FirstIndex(s, d[j])
  }

  lemma {:induction false} FirstIndexStays<T>(s: seq<T>, last: T, x: T)
    requires x in s
    ensures FirstIndex(s + [last], x) == FirstIndex(s, x)
  {
    if s[0] != x {
      assert (s + [last])[1..] == s[1..] + [last];
      FirstIndexStays(s[1..], last, x);
    }
  }

  lemma {:induction false} LastIsNew<T>(s: seq<T>, last: T)
    requires last !in s
    ensures FirstIndex(s + [last], last) == |s|
  {
    if s != [] {
      assert (s + [last])[1..] == s[1..] + [last];
      LastIsNew(s[1..], last);
    }
  }

  lemma {:induction false} DistinctAreFirsts<T(!new)>(s: seq<T>)
    ensures AreFirsts(Distinct(s), s)
  {
    DistinctHasNoRepeats(s);
    if s != [] {
      var most, last := s[..|s| - 1], s[|s| - 1];
      assert s == most + [last];
      DistinctAreFirsts(most);
      var before, now := Distinct(most), Distinct(s);
      forall i, j | 0 <= i < j < |now| ensures FirstIndex(s, now[i]) < FirstIndex(s, now[j]) {
        FirstIndexStays(most, last, now[i]);
        if j < |before| {
          FirstIndexStays(most, last, now[j]);
        } else {
          LastIsNew(most, last);
        }
      }
    }
  }

  // Dropping the repeats of the second of two lists first changes nothing.
  lemma {:induction false} DistinctOfConcat<T(!new)>(a: seq<T>, b: seq<T>)
    ensures Distinct(a + b) == Distinct(a + Distinct(b))
  {
    if b != [] {
      var most, last := b[..|b| - 1], b[|b| - 1];
      assert (a + b)[..|a + b| - 1] == a + most;
      DistinctOfConcat(a, most);
      if last !in Distinct(most) {
        var grown := a + (Distinct(most) + [last]);
        assert grown[..|grown| - 1] == a + Distinct(most);
      }
    }
  }

  // CitedRules: each part of the reason that is a rule identifier, once trimmed.
  function CitedRules(rt: RuleText, reason: Bytes): seq<Bytes> {
    Distinct(Citations(rt, Split(reason)))
  }

  lemma {:induction false} CiteNext(rt: RuleText, parts: seq<Bytes>, i: nat)
    requires i < |parts|
    ensures var before, rule := Citations(rt, parts[..i]), rt.trim(parts[i]);
            Distinct(Citations(rt, parts[..i + 1]))
            == if rt.isRule(rule) && rule !in Distinct(before) then Distinct(before) + [rule] else Distinct(before)
  {
    assert parts[..i + 1][..i] == parts[..i];
    var before, rule := Citations(rt, parts[..i]), rt.trim(parts[i]);
    assert before + [] == before;
  }

  method RunCitedRules(rt: RuleText, reason: Bytes) returns (rules: seq<Bytes>)
    ensures rules == CitedRules(rt, reason)
    ensures AreFirsts(rules, Citations(rt, Split(reason)))
  {
    var parts := Split(reason);
    rules := [];
    for i := 0 to |parts|
      invariant rules == Distinct(Citations(rt, parts[..i]))
    {
      CiteNext(rt, parts, i);
      var rule := rt.trim(parts[i]);
      if rt.isRule(rule) && rule !in rules {
        rules := rules + [rule];
      }
    }
    assert parts[..|parts|] == parts;
    DistinctAreFirsts(Citations(rt, parts));
  }

  // The citations of the DENIED votes, one vote after the other, with repeats.
  function AllCitations(rt: RuleText, votes: seq<Commitment>): seq<Bytes> {
    if votes == [] then []
    else
      var before, vote := AllCitations(rt, votes[..|votes| - 1]), votes[|votes| - 1];
      if vote.vote == Denied then before + Citations(rt, Split(vote.reason)) else before
  }

  // Adds the rules of cited that are not in rules yet.
  method AddCited(rules: seq<Bytes>, cited: seq<Bytes>, ghost before: seq<Bytes>) returns (all: seq<Bytes>)
    requires rules == Distinct(before)
    ensures all == Distinct(before + cited)
  {
    all := rules;
    assert before + [] == before;
    for j := 0 to |cited|
      invariant all == Distinct(before + cited[..j])
    {
      assert before + cited[..j + 1] == (before + cited[..j]) + [cited[j]];
      if cited[j] !in all {
        all := all + [cited[j]];
      }
    }
    assert cited[..|cited|] == cited;
  }

  // DisputedRules: the rules that the DENIED votes cite, in the order of the first
  // citation in all of them together, although the repeats in each vote's own
  // reason are dropped first.
  method RunDisputedRules(rt: RuleText, votes: seq<Commitment>) returns (rules: seq<Bytes>)
    ensures rules == Distinct(AllCitations(rt, votes))
    ensures AreFirsts(rules, AllCitations(rt, votes))
  {
    rules := [];
    for i := 0 to |votes|
      invariant rules == Distinct(AllCitations(rt, votes[..i]))
    {
      assert votes[..i + 1][..i] == votes[..i];
      if votes[i].vote == Denied {
        ghost var before := AllCitations(rt, votes[..i]);
        var cited := RunCitedRules(rt, votes[i].reason);
        DistinctOfConcat(before, Citations(rt, Split(votes[i].reason)));
        rules := AddCited(rules, cited, before);
      }
    }
    assert votes[..|votes|] == votes;
    DistinctAreFirsts(AllCitations(rt, votes));
  }
}
