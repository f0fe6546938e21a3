// The tags and the document of a corpus file are read back from it, whatever others
// wrote in the ruling.
module CorpusTheorems {
  import opened Wrappers
  import opened Text
  import opened Corpus

  // ---- What printed values are ----------------------------------------------------

  predicate IsGraphic(c: char) {
    '!' <= c <= '~'
  }

  // A word of visible characters, as identifiers, hashes, numbers and times are.
  predicate IsWord(text: string) {
    text != "" && forall i :: 0 <= i < |text| ==> IsGraphic(text[i])
  }

  // A line with no space around it.
  predicate IsTrimmed(text: string) {
    text != "" && IsGraphic(text[0]) && IsGraphic(text[|text| - 1]) && OneLine(text)
  }

  // What is taken of the library: a quoted string has no newline in it; trimming
  // removes the space before a trimmed text, and nothing else; a rule identifier is a
  // word; and the base32 text of a CID has no "<" in it.
  ghost predicate Faithful(lib: Library) {
    && (forall text :: OneLine(lib.quote(text)))
    && (forall text | IsTrimmed(text) :: lib.trim(" " + text) == text)
    && (forall text, rule :: rule in lib.findRules(text) ==> IsWord(rule))
    && (forall text | lib.isCid(text) :: '<' !in text)
  }

  // The values that the header has, other than the rules.
  function HeaderValues(e: Entry): seq<string> {
    [e.id, e.outcome, e.chain, e.safe, e.charter, e.proposed, e.recordHash]
  }

  // The values of the header are words, and the other ones are on one line. Nothing is
  // assumed of the Charter name, the reasons, the context, and the document.
  predicate Printable(e: Entry) {
    && (forall v :: v in HeaderValues(e) ==> IsWord(v))
    && PrintableProposal(e) && PrintableTransaction(e)
    && OneLine(e.frozen) && OneLine(e.deadline) && OneLine(e.recordBlock)
    && (forall v :: v in e.votes ==> OneLine(v.sentinel) && OneLine(v.vote))
  }

  predicate PrintableProposal(e: Entry) {
    && OneLine(e.oracle) && OneLine(e.consensus) && OneLine(e.block) && OneLine(e.txHash) && OneLine(e.ethereumBlock)
    && OneLine(e.safeBlock) && OneLine(e.epoch) && OneLine(e.oracleData) && OneLine(e.safeTxHash)
  }

  predicate PrintableTransaction(e: Entry) {
    && OneLine(e.to) && OneLine(e.value) && OneLine(e.data) && OneLine(e.operation) && OneLine(e.safeTxGas)
    && OneLine(e.baseGas) && OneLine(e.gasPrice) && OneLine(e.gasToken) && OneLine(e.refundReceiver) && OneLine(e.nonce)
  }

  lemma WordIsTrimmed(text: string)
    requires IsWord(text)
    ensures IsTrimmed(text)
  {
  }

  lemma OneLineConcat(a: string, b: string)
    requires OneLine(a) && OneLine(b)
    ensures OneLine(a + b)
  {
  }

  lemma {:induction false} JoinIsTrimmed(words: seq<string>)
    requires words != [] && forall w :: w in words ==> IsWord(w)
    ensures IsTrimmed(JoinComma(words))
  {
    var n := |words| - 1;
    WordIsTrimmed(words[n]);
    if n > 0 {
      JoinIsTrimmed(words[..n]);
      OneLineConcat(JoinComma(words[..n]), ", ");
      OneLineConcat(JoinComma(words[..n]) + ", ", words[n]);
    }
  }

  lemma RulesValueIsTrimmed(lib: Library, document: string)
    requires Faithful(lib)
    ensures IsTrimmed(RulesValue(RulesOf(lib, document)))
  {
    var rules := RulesOf(lib, document);
    forall rule | rule in rules ensures IsWord(rule) {
      assert rule in lib.findRules(document);
    }
    if rules != [] {
      JoinIsTrimmed(rules);
    }
  }

  // ---- The header parses ----------------------------------------------------------------

  predicate IsPrintedTag(tag: Tag) {
    IsKey(tag.key) && ':' !in tag.key && OneLine(tag.key) && IsTrimmed(tag.value)
  }

  lemma TagLineParses(lib: Library, tag: Tag)
    requires Faithful(lib) && IsPrintedTag(tag)
    ensures TagOf(lib, TagLine(tag)) == Some(tag)
    ensures OneLine(TagLine(tag)) && TagLine(tag) != "---"
  {
    var line := TagLine(tag);
    assert line == tag.key + [':'] + (" " + tag.value);
    CutAtCharacter(tag.key, ':', " " + tag.value);
    assert line[|tag.key|] == ':';
  }

  lemma {:induction false} LineThen(line: string, more: seq<string>, rest: string)
    ensures Lines([line] + more) + rest == line + ['\n'] + (Lines(more) + rest)
  {
    assert ([line] + more)[1..] == more;
  }

  lemma {:induction false} TagLinesParse(lib: Library, tags: seq<Tag>, after: seq<string>, rest: string)
    requires Faithful(lib) && forall tag :: tag in tags ==> IsPrintedTag(tag)
    ensures TagsUntilEnd(lib, Lines(TagLines(tags) + ["---"] + after) + rest) == Ok(tags)
  {
    if tags == [] {
      assert TagLines(tags) + ["---"] + after == ["---"] + after;
      LineThen("---", after, rest);
      CutAtCharacter("---", '\n', Lines(after) + rest);
    } else {
      var line, more := TagLine(tags[0]), TagLines(tags[1..]) + ["---"] + after;
      assert TagLines(tags) + ["---"] + after == [line] + more;
      LineThen(line, more, rest);
      TagLineParses(lib, tags[0]);
      CutAtCharacter(line, '\n', Lines(more) + rest);
      TagLinesParse(lib, tags[1..], after, rest);
      assert [tags[0]] + tags[1..] == tags;
    }
  }

  lemma {:induction false} HeaderParses(lib: Library, tags: seq<Tag>, report: seq<string>, rest: string)
    requires Faithful(lib) && forall tag :: tag in tags ==> IsPrintedTag(tag)
    ensures Header(lib, Lines((["---"] + TagLines(tags) + ["---"]) + report) + rest) == Ok(tags)
  {
    var more := TagLines(tags) + ["---"] + report;
    assert (["---"] + TagLines(tags) + ["---"]) + report == ["---"] + more;
    LineThen("---", more, rest);
    var text := Lines(["---"] + more) + rest;
    assert text[..4] == FENCE && text[4..] == Lines(more) + rest;
    TagLinesParse(lib, tags, report, rest);
  }

  lemma HeaderTagsArePrinted(lib: Library, e: Entry)
    requires Faithful(lib) && Printable(e)
    ensures forall tag :: tag in HeaderTags(e, RulesOf(lib, e.document)) ==> IsPrintedTag(tag)
  {
    RulesValueIsTrimmed(lib, e.document);
    forall v | v in HeaderValues(e) ensures IsTrimmed(v) {
      WordIsTrimmed(v);
    }
    KeysAreKeys();
  }

  lemma KeysAreKeys()
    ensures forall key :: key in ["request", "outcome", "rules", "chain", "safe", "charter", "proposed", "record"] ==>
              IsKey(key) && ':' !in key && OneLine(key)
  {
  }

  // ---- No line of the report starts the document -------------------------------------------

  lemma ItemIsHarmless(name: string, value: string)
    requires OneLine(name) && NoLineStartsWithLess(value)
    ensures Harmless(Item(name, value))
  {
    var start := "- " + name + ": ";
    assert start[0] == '-';
  }

  lemma ItemsAreHarmless(names: seq<string>, values: seq<string>)
    requires |names| == |values| && (forall name :: name in names ==> OneLine(name))
    requires forall v :: v in values ==> NoLineStartsWithLess(v)
    ensures forall line :: line in Items(names, values) ==> Harmless(line)
  {
    forall i | 0 <= i < |names| ensures Harmless(Items(names, values)[i]) {
      ItemIsHarmless(names[i], values[i]);
    }
  }

  lemma ProposalNamesAreOneLine()
    ensures forall name :: name in PROPOSAL_NAMES ==> OneLine(name)
  {
  }

  lemma TransactionNamesAreOneLine()
    ensures forall name :: name in TRANSACTION_NAMES ==> OneLine(name)
  {
  }

  lemma RecordIsOneLine(block: string, hash: string)
    requires OneLine(block) && OneLine(hash)
    ensures OneLine("block " + block + ", transaction " + hash)
  {
    OneLineConcat("block ", block);
    OneLineConcat("block " + block, ", transaction ");
    OneLineConcat("block " + block + ", transaction ", hash);
  }

  lemma WordsAreOneLine(e: Entry)
    requires Printable(e)
    ensures OneLine(e.id) && OneLine(e.outcome) && OneLine(e.chain) && OneLine(e.safe) && OneLine(e.proposed)
    ensures OneLine(e.recordHash)
  {
    forall v | v in HeaderValues(e) ensures OneLine(v) {
      WordIsTrimmed(v);
    }
  }

  lemma ProposalIsHarmless(lib: Library, e: Entry)
    requires Faithful(lib) && Printable(e)
    ensures forall line :: line in ProposalLines(lib, e) ==> Harmless(line)
  {
    WordsAreOneLine(e);
    TitleIsHarmless(e.id);
    ProposalNamesAreOneLine();
    ItemsAreHarmless(PROPOSAL_NAMES, ProposalValues(lib, e));
  }

  lemma TitleIsHarmless(id: string)
    requires OneLine(id)
    ensures forall line :: line in ["", "# Ruling on request " + id, "", "## Proposal", ""] ==> Harmless(line)
  {
    OneLineConcat("# Ruling on request ", id);
  }

  lemma TransactionIsHarmless(e: Entry)
    requires Printable(e)
    ensures forall line :: line in TransactionLines(e) ==> Harmless(line)
  {
    WordsAreOneLine(e);
    TransactionNamesAreOneLine();
    ItemsAreHarmless(TRANSACTION_NAMES, TransactionValues(e));
    assert Harmless("## Safe transaction") && Harmless("");
  }

  lemma VotesAreHarmless(lib: Library, votes: seq<VoteLine>)
    requires Faithful(lib) && forall v :: v in votes ==> OneLine(v.sentinel) && OneLine(v.vote)
    ensures forall line :: line in VoteLines(lib, votes) ==> Harmless(line)
  {
    forall v | v in votes ensures Harmless(VoteText(lib, v)) {
      OneLineConcat(v.vote, ", reason ");
      OneLineConcat(v.vote + ", reason ", lib.quote(v.reason));
      var value := if v.reason == "" then v.vote else v.vote + ", reason " + lib.quote(v.reason);
      ItemIsHarmless(v.sentinel, value);
    }
    assert Harmless("None.") && Harmless("## Votes") && Harmless("");
  }

  // The text of a context that is printed has no "<", as it is of a CID.
  lemma ContextIsHarmless(lib: Library, context: string)
    requires Faithful(lib)
    ensures NoLineStartsWithLess(ContextText(lib, context))
  {
    if IsReference(lib, context) {
      ReferenceHasNoLess(lib, context);
      var suffix := ", which references the document below";
      assert '<' !in suffix;
      assert '<' !in context + suffix;
    }
  }

  lemma ReferenceHasNoLess(lib: Library, context: string)
    requires Faithful(lib) && IsReference(lib, context)
    ensures '<' !in context
  {
    if IsCid(lib, context) {
      assert context == context[..1] + context[1..];
    } else {
      var cid := context[7..];
      assert cid == cid[..1] + cid[1..];
      assert context == "ipfs://" + cid;
    }
  }

  lemma RulingIsHarmless(lib: Library, e: Entry)
    requires Faithful(lib) && Printable(e)
    ensures forall line :: line in RulingLines(lib, e) ==> Harmless(line)
  {
    WordsAreOneLine(e);
    OneLineConcat("block ", e.frozen);
    OneLineConcat("block ", e.deadline);
    RecordIsOneLine(e.recordBlock, e.recordHash);
    ContextIsHarmless(lib, e.context);
    ItemsAreHarmless(RULING_NAMES, RulingValues(lib, e));
    assert Harmless("## Ruling") && Harmless("");
  }

  lemma HeaderIsHarmless(lib: Library, tags: seq<Tag>)
    requires Faithful(lib) && forall tag :: tag in tags ==> IsPrintedTag(tag) && tag.key[0] != '<'
    ensures forall line :: line in ["---"] + TagLines(tags) + ["---"] ==> Harmless(line)
  {
    assert Harmless("---");
    forall tag | tag in tags ensures Harmless(TagLine(tag)) {
      TagLineParses(lib, tag);
      assert TagLine(tag)[0] == tag.key[0];
    }
  }

  // ---- The round trip ------------------------------------------------------------------------

  lemma FrontIsHarmless(lib: Library, e: Entry)
    requires Faithful(lib) && Printable(e)
    ensures Harmless(Lines(HeaderLines(e, RulesOf(lib, e.document)) + ReportLines(lib, e)))
  {
    HeaderTagsArePrinted(lib, e);
    HeaderIsHarmless(lib, HeaderTags(e, RulesOf(lib, e.document)));
    ProposalIsHarmless(lib, e);
    TransactionIsHarmless(e);
    VotesAreHarmless(lib, e.votes);
    RulingIsHarmless(lib, e);
    HarmlessLines(HeaderLines(e, RulesOf(lib, e.document)) + ReportLines(lib, e));
  }

  // For every entry, whatever the Charter name, the reasons, the context and the
  // document are, the tags of its file are the eight of its header, with its values,
  // and the ones of its document, and the text after the first marker is its document.
  lemma FileReadsBack(lib: Library, e: Entry)
    requires Faithful(lib) && Printable(e)
    ensures var file, rules := File(lib, e), RulesOf(lib, e.document);
            && TagsOf(lib, file) == Ok(FileTags(HeaderTags(e, rules), DocumentTags(lib, e.document)))
            && Cut(file, MARKER) == Some((Lines(HeaderLines(e, rules) + ReportLines(lib, e)), e.document))
  {
    var rules := RulesOf(lib, e.document);
    var front := Lines(HeaderLines(e, rules) + ReportLines(lib, e));
    HeaderTagsArePrinted(lib, e);
    HeaderParses(lib, HeaderTags(e, rules), ReportLines(lib, e), MARKER + e.document);
    assert front + (MARKER + e.document) == front + MARKER + e.document;
    FrontIsHarmless(lib, e);
    CutAtMarker(front, MARKER, e.document);
  }

  // So files that are the same are of rulings with the same header and document.
  lemma FilesIdentify(lib: Library, e: Entry, f: Entry)
    requires Faithful(lib) && Printable(e) && Printable(f) && File(lib, e) == File(lib, f)
    ensures e.document == f.document && e.id == f.id && e.outcome == f.outcome && e.safe == f.safe
    ensures e.chain == f.chain && e.charter == f.charter && e.proposed == f.proposed && e.recordHash == f.recordHash
  {
    FileReadsBack(lib, e);
    FileReadsBack(lib, f);
    var t, u := HeaderTags(e, RulesOf(lib, e.document)), HeaderTags(f, RulesOf(lib, f.document));
    assert forall i :: 0 <= i < 8 ==> t[i] == u[i];
    assert t[0].value == u[0].value && t[1].value == u[1].value && t[3].value == u[3].value;
    assert t[4].value == u[4].value && t[5].value == u[5].value && t[6].value == u[6].value && t[7].value == u[7].value;
  }
}
