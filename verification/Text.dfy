// Text, and the parts of it between separators.
module Text {
  import opened Wrappers

  predicate OccursAt(text: string, separator: string, p: nat) {
    p + |separator| <= |text| && text[p..p + |separator|] == separator
  }

  // The text before the first separator and after it, if there is one, as
  // strings.Cut finds them.
  function Cut(text: string, separator: string): Option<(string, string)>
    requires separator != ""
  {
    CutFrom(text, separator, 0)
  }

  function CutFrom(text: string, separator: string, p: nat): Option<(string, string)>
    requires separator != "" && p <= |text|
    decreases |text| - p
  {
    if OccursAt(text, separator, p) then Some((text[..p], text[p + |separator|..]))
    else if p == |text| then None
    else CutFrom(text, separator, p + 1)
  }

  lemma {:induction false} CutAtFirst(text: string, separator: string, p: nat, first: nat)
    requires separator != "" && p <= first <= |text| && OccursAt(text, separator, first)
    requires forall q :: p <= q < first ==> !OccursAt(text, separator, q)
    ensures CutFrom(text, separator, p) == Some((text[..first], text[first + |separator|..]))
    decreases first - p
  {
    if p < first {
      CutAtFirst(text, separator, p + 1, first);
    }
  }

  // Joining what a cut finds gives the text.
  lemma {:induction false} CutJoins(text: string, separator: string, p: nat)
    requires separator != "" && p <= |text| && CutFrom(text, separator, p).Some?
    ensures var (before, after) := CutFrom(text, separator, p).value;
            text == before + separator + after && |before| >= p
    decreases |text| - p
  {
    if !OccursAt(text, separator, p) {
      CutJoins(text, separator, p + 1);
    }
  }

  lemma CutIsShorter(text: string, separator: string)
    requires separator != "" && Cut(text, separator).Some?
    ensures |Cut(text, separator).value.1| < |text|
  {
    CutJoins(text, separator, 0);
  }

  // A separator of one character is cut at where it first is.
  lemma CutAtCharacter(before: string, separator: char, after: string)
    requires separator !in before
    ensures Cut(before + [separator] + after, [separator]) == Some((before, after))
  {
    var text, n := before + [separator] + after, |before|;
    assert text[n..n + 1] == [separator];
    forall q | 0 <= q < n ensures !OccursAt(text, [separator], q) {
      assert text[q] == before[q] && text[q..q + 1] == [text[q]];
    }
    CutAtFirst(text, [separator], 0, n);
    assert text[..n] == before && text[n + 1..] == after;
  }

  // ---- Lines -----------------------------------------------------------------------

  predicate OneLine(text: string) {
    '\n' !in text
  }

  // No line of text after the first one starts with "<".
  predicate NoLineStartsWithLess(text: string) {
    forall i :: 0 <= i < |text| - 1 ==> text[i] != '\n' || text[i + 1] != '<'
  }

  // Neither does the first one.
  predicate Harmless(text: string) {
    NoLineStartsWithLess(text) && (text != "" ==> text[0] != '<')
  }

  function Lines(lines: seq<string>): string {
    if lines == [] then "" else lines[0] + "\n" + Lines(lines[1..])
  }

  lemma HarmlessConcat(a: string, b: string)
    requires Harmless(a) && Harmless(b)
    ensures Harmless(a + b)
  {
    var text := a + b;
    forall i | 0 <= i < |text| - 1 ensures text[i] != '\n' || text[i + 1] != '<' {
      if i + 1 < |a| {
        assert text[i] == a[i] && text[i + 1] == a[i + 1];
      } else if i + 1 == |a| {
        assert text[i + 1] == b[0];
      } else {
        assert text[i] == b[i - |a|] && text[i + 1] == b[i - |a| + 1];
      }
    }
  }

  lemma {:induction false} HarmlessLines(lines: seq<string>)
    requires forall line :: line in lines ==> Harmless(line)
    ensures Harmless(Lines(lines))
  {
    if lines != [] {
      HarmlessLines(lines[1..]);
      assert Harmless("\n");
      HarmlessConcat(lines[0], "\n");
      HarmlessConcat(lines[0] + "\n", Lines(lines[1..]));
    }
  }

  lemma {:induction false} LinesConcat(a: seq<string>, b: seq<string>)
    ensures Lines(a + b) == Lines(a) + Lines(b)
  {
    if a == [] {
      assert a + b == b;
    } else {
      assert (a + b)[1..] == a[1..] + b;
      LinesConcat(a[1..], b);
    }
  }

  lemma {:induction false} LinesAppend(lines: seq<string>, line: string)
    ensures Lines(lines + [line]) == Lines(lines) + line + "\n"
  {
    LinesConcat(lines, [line]);
    assert [line][1..] == [];
    assert Lines([line]) == line + "\n" + "";
  }

  lemma OccurrenceStarts(text: string, marker: string, q: nat)
    requires |marker| >= 2 && OccursAt(text, marker, q)
    ensures text[q] == marker[0] && text[q + 1] == marker[1]
  {
    assert text[q] == text[q..q + |marker|][0] && text[q + 1] == text[q..q + |marker|][1];
  }

  // The first "\n<..." of a text is the one after a harmless part.
  lemma CutAtMarker(front: string, marker: string, after: string)
    requires Harmless(front) && |marker| >= 2 && marker[0] == '\n' && marker[1] == '<'
    ensures Cut(front + marker + after, marker) == Some((front, after))
  {
    var text, n := front + marker + after, |front|;
    assert text[n..n + |marker|] == marker;
    forall q | 0 <= q < n ensures !OccursAt(text, marker, q) {
      assert text[q] == front[q];
      assert text[q + 1] == if q + 1 < n then front[q + 1] else marker[0];
      if OccursAt(text, marker, q) {
        OccurrenceStarts(text, marker, q);
      }
    }
    CutAtFirst(text, marker, 0, n);
    assert text[..n] == front && text[n + |marker|..] == after;
  }
}
