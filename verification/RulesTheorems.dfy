// Which rules votes cite, by positions in their reasons.
module RulesTheorems {
  import opened EthTypes
  import opened SafenetTypes
  import opened Rules

  // ---- The parts of a text -----------------------------------------------------------

  function JoinCommas(parts: seq<Bytes>): Bytes {
    if parts == [] then [] else if |parts| == 1 then parts[0] else parts[0] + [COMMA] + JoinCommas(parts[1..])
  }

  // Parts without commas that give the text when commas are put between them.
  predicate ArePartsOf(parts: seq<Bytes>, text: Bytes) {
    parts != [] && JoinCommas(parts) == text && forall part :: part in parts ==> COMMA !in part
  }

  lemma {:induction false} SplitIsParts(text: Bytes)
    ensures ArePartsOf(Split(text), text)
  {
    if text != [] {
      var rest := Split(text[1..]);
      SplitIsParts(text[1..]);
      assert text == [text[0]] + text[1..];
      if text[0] == COMMA {
        assert ([[]] + rest)[1..] == rest;
      } else {
        var first := [text[0]] + rest[0];
        assert ([first] + rest[1..])[1..] == rest[1..];
      }
    }
  }

  lemma {:induction false} PartsAreUnique(a: seq<Bytes>, b: seq<Bytes>, text: Bytes)
    requires ArePartsOf(a, text) && ArePartsOf(b, text)
    ensures a == b
  {
    SameFirst(a, b, text);
    if |a| == 1 {
      OnlyOnePart(a, b);
    } else if |b| == 1 {
      OnlyOnePart(b, a);
    } else {
      var n := |a[0]| + 1;
      assert text[n..] == JoinCommas(a[1..]) == JoinCommas(b[1..]);
      PartsAreUnique(a[1..], b[1..], text[n..]);
      assert a == [a[0]] + a[1..] && b == [b[0]] + b[1..];
    }
  }

  lemma {:induction false} SameFirst(a: seq<Bytes>, b: seq<Bytes>, text: Bytes)
    requires ArePartsOf(a, text) && ArePartsOf(b, text)
    ensures a[0] == b[0]
  {
    FirstEnds(a, text);
    FirstEnds(b, text);
    NotShorter(a[0], b[0], text);
    NotShorter(b[0], a[0], text);
  }

  lemma NotShorter(a: Bytes, b: Bytes, text: Bytes)
    requires |a| < |text| ==> text[|a|] == COMMA
    requires |b| <= |text| && text[..|b|] == b && COMMA !in b
    ensures |b| <= |a|
  {
    assert forall k :: 0 <= k < |b| ==> text[k] == b[k];
  }

  lemma FirstEnds(parts: seq<Bytes>, text: Bytes)
    requires ArePartsOf(parts, text)
    ensures |parts[0]| <= |text| && text[..|parts[0]|] == parts[0] && COMMA !in parts[0]
    ensures |text| > |parts[0]| ==> text[|parts[0]|] == COMMA
  {
  }

  lemma {:induction false} OnlyOnePart(a: seq<Bytes>, b: seq<Bytes>)
    requires |a| == 1 && b != [] && a[0] == b[0] && JoinCommas(a) == JoinCommas(b)
    ensures a == b
  {
  }

  // A stretch of a text between commas, or its ends.
  predicate IsStretch(text: Bytes, i: int, j: int) {
    && 0 <= i <= j <= |text| && COMMA !in text[i..j]
    && (i == 0 || text[i - 1] == COMMA) && (j == |text| || text[j] == COMMA)
  }

  // Where the part after some others starts.
  function Offset(parts: seq<Bytes>): nat {
    if parts == [] then 0 else |parts[0]| + 1 + Offset(parts[1..])
  }

  lemma {:induction false} OffsetConcat(a: seq<Bytes>, b: seq<Bytes>)
    ensures Offset(a + b) == Offset(a) + Offset(b)
  {
    if a == [] {
      assert a + b == b;
    } else {
      assert (a + b)[1..] == a[1..] + b;
      OffsetConcat(a[1..], b);
    }
  }

  lemma {:induction false} OffsetAfterFirst(parts: seq<Bytes>, k: nat)
    requires k < |parts|
    ensures Offset(parts[..k + 1]) == |parts[0]| + 1 + Offset(parts[1..][..k])
  {
    assert parts[..k + 1][1..] == parts[1..][..k];
  }

  // The parts of a text are those of its rest, with a new one before them if it starts
  // with a comma, and with its first byte in the first one if it doesn't.
  lemma {:induction false} SplitAtComma(text: Bytes, k: nat)
    requires text != [] && text[0] == COMMA
    ensures var parts, rest := Split(text), Split(text[1..]);
            |parts| == |rest| + 1 && (k < |rest| ==> parts[k + 1] == rest[k] && Offset(parts[..k + 1]) == 1 + Offset(rest[..k]))
  {
    var parts, rest := Split(text), Split(text[1..]);
    assert parts[0] == [] && parts[1..] == rest;
    if k < |rest| {
      OffsetAfterFirst(parts, k);
    }
  }

  lemma {:induction false} SplitElsewhere(text: Bytes, k: nat)
    requires text != [] && text[0] != COMMA
    ensures var parts, rest := Split(text), Split(text[1..]);
            && |parts| == |rest| && parts[0] == [text[0]] + rest[0]
            && (0 < k < |rest| ==> parts[k] == rest[k] && Offset(parts[..k]) == 1 + Offset(rest[..k]))
  {
    var parts, rest := Split(text), Split(text[1..]);
    assert parts[0] == [text[0]] + rest[0] && parts[1..] == rest[1..];
    if 0 < k < |rest| {
      assert parts[k] == parts[1..][k - 1] == rest[k];
      OffsetAfterFirst(parts, k - 1);
      OffsetAfterFirst(rest, k - 1);
    }
  }

  lemma Shifted(text: Bytes, i: nat, j: nat)
    requires text != [] && i <= j < |text|
    ensures text[i + 1..j + 1] == text[1..][i..j]
    ensures i > 0 || text[0] == COMMA ==> (IsStretch(text, i + 1, j + 1) <==> IsStretch(text[1..], i, j))
  {
    forall k | 0 <= k < j - i ensures text[i + 1..j + 1][k] == text[1..][i..j][k] {
    }
    assert text[i + 1..j + 1] == text[1..][i..j];
  }

  // The first part is the text before the first comma.
  lemma {:induction false} FirstPart(text: Bytes, j: nat)
    ensures IsStretch(text, 0, |Split(text)[0]|) && text[..|Split(text)[0]|] == Split(text)[0]
    ensures IsStretch(text, 0, j) ==> j == |Split(text)[0]|
  {
    if text != [] && text[0] != COMMA {
      var rest := Split(text[1..]);
      FirstPart(text[1..], if j > 0 then j - 1 else 0);
      SplitElsewhere(text, 0);
      assert text[..|rest[0]| + 1] == [text[0]] + text[1..][..|rest[0]|];
      if 0 < j <= |text| {
        assert text[0..j] == [text[0]] + text[1..][0..j - 1];
      }
    } else if 0 < j <= |text| {
      assert text[0..j][0] == COMMA;
    }
  }

  // Where a part is, and that it is a stretch.
  predicate IsPartAt(text: Bytes, k: nat, i: nat) {
    && k < |Split(text)| && i == Offset(Split(text)[..k])
    && IsStretch(text, i, i + |Split(text)[k]|) && text[i..i + |Split(text)[k]|] == Split(text)[k]
  }

  lemma {:induction false} PartIsStretch(text: Bytes, k: nat)
    requires k < |Split(text)|
    ensures IsPartAt(text, k, Offset(Split(text)[..k]))
  {
    FirstPart(text, 0);
    if text != [] && k > 0 {
      if text[0] == COMMA {
        SplitAtComma(text, k - 1);
        PartIsStretch(text[1..], k - 1);
        LaterPart(text, k - 1, k, Offset(Split(text[1..])[..k - 1]));
      } else {
        SplitElsewhere(text, k);
        PartIsStretch(text[1..], k);
        OffsetGrows(Split(text[1..]), k);
        LaterPart(text, k, k, Offset(Split(text[1..])[..k]));
      }
    }
  }

  lemma {:induction false} LaterPart(text: Bytes, k0: nat, k: nat, i: nat)
    requires text != [] && IsPartAt(text[1..], k0, i) && (i > 0 || text[0] == COMMA)
    requires k < |Split(text)| && Split(text)[k] == Split(text[1..])[k0] && Offset(Split(text)[..k]) == i + 1
    ensures IsPartAt(text, k, i + 1)
  {
    Shifted(text, i, i + |Split(text)[k]|);
  }

  lemma OffsetGrows(parts: seq<Bytes>, k: nat)
    requires k <= |parts|
    ensures k > 0 ==> Offset(parts[..k]) > 0
  {
  }

  lemma {:induction false} StretchIsPart(text: Bytes, i: nat, j: nat) returns (k: nat)
    requires IsStretch(text, i, j)
    ensures k < |Split(text)| && Offset(Split(text)[..k]) == i && |Split(text)[k]| == j - i
    ensures Split(text)[k] == text[i..j]
  {
    if i == 0 {
      k := 0;
      FirstPart(text, j);
    } else {
      Shifted(text, i - 1, j - 1);
      k := StretchIsPart(text[1..], i - 1, j - 1);
      if text[0] == COMMA {
        SplitAtComma(text, k);
        k := k + 1;
      } else {
        SplitElsewhere(text, k);
      }
    }
  }

  // ---- Where rules are cited -----------------------------------------------------------

  // A stretch of the reason of a DENIED vote that is a rule identifier, once trimmed.
  datatype Place = Place(vote: nat, start: nat, end: nat, rule: Bytes)

  predicate CitesAt(rt: RuleText, reason: Bytes, start: nat, end: nat, rule: Bytes) {
    IsStretch(reason, start, end) && rule == rt.trim(reason[start..end]) && rt.isRule(rule)
  }

  predicate IsPlace(rt: RuleText, votes: seq<Commitment>, p: Place) {
    && p.vote < |votes| && votes[p.vote].vote == Denied
    && CitesAt(rt, votes[p.vote].reason, p.start, p.end, p.rule)
  }

  predicate IsBefore(p: Place, q: Place) {
    p.vote < q.vote || (p.vote == q.vote && p.start < q.start)
  }

  predicate InOrder(places: seq<Place>) {
    forall i, j :: 0 <= i < j < |places| ==> IsBefore(places[i], places[j])
  }

  predicate HaveRules(places: seq<Place>, rules: seq<Bytes>) {
    |places| == |rules| && forall i :: 0 <= i < |rules| ==> places[i].rule == rules[i]
  }

  // The places of the rules among the parts of the reason of a vote.
  function PlacesOf(rt: RuleText, vote: nat, parts: seq<Bytes>): seq<Place> {
    if parts == [] then []
    else
      var before, last := parts[..|parts| - 1], parts[|parts| - 1];
      var rule := rt.trim(last);
      PlacesOf(rt, vote, before)
      + if rt.isRule(rule) then [Place(vote, Offset(before), Offset(before) + |last|, rule)] else []
  }

  predicate IsPartPlace(rt: RuleText, vote: nat, parts: seq<Bytes>, p: Place, k: nat) {
    && k < |parts| && p == Place(vote, Offset(parts[..k]), Offset(parts[..k]) + |parts[k]|, rt.trim(parts[k]))
    && rt.isRule(p.rule)
  }

  lemma InOrderConcat(a: seq<Place>, b: seq<Place>)
    requires InOrder(a) && InOrder(b) && forall p, q :: p in a && q in b ==> IsBefore(p, q)
    ensures InOrder(a + b)
  {
    var all := a + b;
    forall i, j | 0 <= i < j < |all| ensures IsBefore(all[i], all[j]) {
      if i < |a| <= j {
        assert all[i] in a && all[j] in b;
      }
    }
  }

  lemma HaveRulesConcat(a: seq<Place>, x: seq<Bytes>, b: seq<Place>, y: seq<Bytes>)
    requires HaveRules(a, x) && HaveRules(b, y)
    ensures HaveRules(a + b, x + y)
  {
  }

  lemma {:induction false} PlacesAreParts(rt: RuleText, vote: nat, parts: seq<Bytes>)
    ensures HaveRules(PlacesOf(rt, vote, parts), Citations(rt, parts)) && InOrder(PlacesOf(rt, vote, parts))
    ensures forall p :: p in PlacesOf(rt, vote, parts) <==> HasPlace(rt, vote, parts, p)
    ensures forall p :: p in PlacesOf(rt, vote, parts) ==> p.vote == vote && p.start < Offset(parts)
  {
    if parts != [] {
      var n := |parts| - 1;
      var before, last := parts[..n], parts[n];
      var rule := rt.trim(last);
      var cites := rt.isRule(rule);
      var more := if cites then [Place(vote, Offset(before), Offset(before) + |last|, rule)] else [];
      PlacesAreParts(rt, vote, before);
      OffsetConcat(before, [last]);
      assert parts == before + [last] && Offset([last]) == |last| + 1;
      InOrderConcat(PlacesOf(rt, vote, before), more);
      HaveRulesConcat(PlacesOf(rt, vote, before), Citations(rt, before), more, if cites then [rule] else []);
      forall p ensures p in PlacesOf(rt, vote, parts) <==> HasPlace(rt, vote, parts, p) {
        PlaceGrows(rt, vote, parts, p);
      }
    }
  }

  predicate HasPlace(rt: RuleText, vote: nat, parts: seq<Bytes>, p: Place) {
    exists k :: 0 <= k < |parts| && IsPartPlace(rt, vote, parts, p, k)
  }

  lemma PlaceGrows(rt: RuleText, vote: nat, parts: seq<Bytes>, p: Place)
    requires parts != []
    ensures HasPlace(rt, vote, parts, p) <==>
      HasPlace(rt, vote, parts[..|parts| - 1], p) || IsPartPlace(rt, vote, parts, p, |parts| - 1)
  {
    var before := parts[..|parts| - 1];
    forall k | 0 <= k < |before| ensures IsPartPlace(rt, vote, parts, p, k) <==> IsPartPlace(rt, vote, before, p, k) {
      assert before[..k] == parts[..k];
    }
  }

  lemma {:induction false} PlacesInReason(rt: RuleText, vote: nat, reason: Bytes, p: Place)
    ensures p in PlacesOf(rt, vote, Split(reason)) <==> p.vote == vote && CitesAt(rt, reason, p.start, p.end, p.rule)
  {
    var parts := Split(reason);
    PlacesAreParts(rt, vote, parts);
    if p in PlacesOf(rt, vote, parts) {
      var k :| 0 <= k < |parts| && IsPartPlace(rt, vote, parts, p, k);
      PartIsStretch(reason, k);
    }
    if p.vote == vote && CitesAt(rt, reason, p.start, p.end, p.rule) {
      var k := StretchIsPart(reason, p.start, p.end);
      assert IsPartPlace(rt, vote, parts, p, k);
    }
  }

  // The places of the rules that the DENIED votes cite.
  function AllPlaces(rt: RuleText, votes: seq<Commitment>): seq<Place> {
    if votes == [] then []
    else
      var n := |votes| - 1;
      AllPlaces(rt, votes[..n]) + if votes[n].vote == Denied then PlacesOf(rt, n, Split(votes[n].reason)) else []
  }

  lemma {:induction false} AllPlacesAre(rt: RuleText, votes: seq<Commitment>)
    ensures HaveRules(AllPlaces(rt, votes), AllCitations(rt, votes)) && InOrder(AllPlaces(rt, votes))
    ensures forall p :: p in AllPlaces(rt, votes) <==> IsPlace(rt, votes, p)
  {
    if votes != [] {
      var n := |votes| - 1;
      var before, reason := votes[..n], votes[n].reason;
      var denied := votes[n].vote == Denied;
      AllPlacesAre(rt, before);
      PlacesAreParts(rt, n, Split(reason));
      forall p ensures p in PlacesOf(rt, n, Split(reason)) <==> p.vote == n && CitesAt(rt, reason, p.start, p.end, p.rule) {
        PlacesInReason(rt, n, reason, p);
      }
      if denied {
        InOrderConcat(AllPlaces(rt, before), PlacesOf(rt, n, Split(reason)));
        HaveRulesConcat(AllPlaces(rt, before), AllCitations(rt, before), PlacesOf(rt, n, Split(reason)),
                        Citations(rt, Split(reason)));
      }
    }
  }

  // ---- What is listed --------------------------------------------------------------------

  // A rule is listed before another if it is cited at a place before each of the other's.
  ghost predicate CitedFirst(rt: RuleText, votes: seq<Commitment>, x: Bytes, y: Bytes) {
    exists p :: IsPlace(rt, votes, p) && p.rule == x && forall q :: IsPlace(rt, votes, q) && q.rule == y ==> IsBefore(p, q)
  }

  lemma {:induction false} FirstIsCitedFirst(rt: RuleText, votes: seq<Commitment>, x: Bytes, y: Bytes)
    requires var all := AllCitations(rt, votes); x in all && y in all && FirstIndex(all, x) < FirstIndex(all, y)
    ensures CitedFirst(rt, votes, x, y)
  {
    var all, places := AllCitations(rt, votes), AllPlaces(rt, votes);
    AllPlacesAre(rt, votes);
    var p := places[FirstIndex(all, x)];
    assert p in places;
    forall q | IsPlace(rt, votes, q) && q.rule == y ensures IsBefore(p, q) {
      var k :| 0 <= k < |places| && places[k] == q;
      assert all[k] == y;
    }
  }

  // The rules that some votes cite: each that a stretch of the reason of a DENIED vote
  // between commas is, once trimmed; each once; in the order of their first places.
  ghost predicate AreRulesOf(rt: RuleText, votes: seq<Commitment>, rules: seq<Bytes>) {
    && (forall x :: x in rules <==> exists p :: IsPlace(rt, votes, p) && p.rule == x)
    && NoRepeats(rules)
    && forall i, j :: 0 <= i < j < |rules| ==> CitedFirst(rt, votes, rules[i], rules[j])
  }

  lemma {:induction false} DisputedExactly(rt: RuleText, votes: seq<Commitment>)
    ensures AreRulesOf(rt, votes, Distinct(AllCitations(rt, votes)))
  {
    var all, places := AllCitations(rt, votes), AllPlaces(rt, votes);
    var rules := Distinct(all);
    AllPlacesAre(rt, votes);
    DistinctAreFirsts(all);
    forall x ensures x in rules <==> exists p :: IsPlace(rt, votes, p) && p.rule == x {
      if x in all {
        assert places[FirstIndex(all, x)] in places;
      }
      if p :| IsPlace(rt, votes, p) && p.rule == x {
        var k :| 0 <= k < |places| && places[k] == p;
        assert all[k] == x;
      }
    }
    forall i, j | 0 <= i < j < |rules| ensures CitedFirst(rt, votes, rules[i], rules[j]) {
      FirstIsCitedFirst(rt, votes, rules[i], rules[j]);
    }
  }

  // The rules that one reason cites are those of one DENIED vote with that reason.
  lemma {:induction false} CitedExactly(rt: RuleText, vote: Commitment)
    requires vote.vote == Denied
    ensures AreRulesOf(rt, [vote], CitedRules(rt, vote.reason))
  {
    DisputedExactly(rt, [vote]);
    var cited := Citations(rt, Split(vote.reason));
    assert [vote][..0] == [] && AllCitations(rt, []) == [];
    assert [] + cited == cited;
  }
}
