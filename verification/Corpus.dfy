// The files of the rulings corpus: internal/corpus/corpus.go. A file is printed with
// a header, a report and the ruling document, and its tags are parsed back from it.
module Corpus {
  import opened Wrappers
  import opened Text
  import opened Rules

  // The library functions that the printer and the parser call: quoting a string,
  // trimming white space, finding rule identifiers, and decoding the base32 text of a
  // CID after its prefix, if it is one.
  datatype Library = Library(
    quote: string -> string, trim: string -> string, findRules: string -> seq<string>, isCid: string -> bool)

  // "\n", and the line and the thematic break after it that start the document.
  const DOCUMENT_START := "<!-- DOCUMENT START -->\n---\n\n"
  const MARKER := "\n" + DOCUMENT_START

  datatype VoteLine = VoteLine(sentinel: string, vote: string, reason: string)

  // A ruling. Its hashes, addresses, numbers and times are the text that they are
  // printed as. The Charter name, the reasons, the context and the document are text
  // that others wrote.
  datatype Entry = Entry(
    id: string, outcome: string, chain: string, safe: string, charter: string, proposed: string, recordHash: string,
    oracle: string, consensus: string, charterName: string, block: string, txHash: string, ethereumBlock: string,
    safeBlock: string, epoch: string, oracleData: string, safeTxHash: string, to: string, value: string, data: string,
    operation: string, safeTxGas: string, baseGas: string, gasPrice: string, gasToken: string, refundReceiver: string,
    nonce: string, votes: seq<VoteLine>, frozen: string, deadline: string, recordBlock: string, context: string,
    document: string)

  datatype Tag = Tag(key: string, value: string)

  // ---- Printing ----------------------------------------------------------------------

  function JoinComma(parts: seq<string>): string {
    if parts == [] then ""
    else if |parts| == 1 then parts[0]
    else JoinComma(parts[..|parts| - 1]) + ", " + parts[|parts| - 1]
  }

  // The rules that the document cites.
  function RulesOf(lib: Library, document: string): seq<string> {
    Distinct(lib.findRules(document))
  }

  method RunRules(lib: Library, document: string) returns (rules: seq<string>)
    ensures rules == RulesOf(lib, document)
    ensures AreFirsts(rules, lib.findRules(document))
  {
    var found := lib.findRules(document);
    rules := [];
    for i := 0 to |found|
      invariant rules == Distinct(found[..i])
    {
      assert found[..i + 1] == found[..i] + [found[i]];
      if found[i] !in rules {
        rules := rules + [found[i]];
      }
    }
    assert found[..|found|] == found;
    DistinctAreFirsts(found);
  }

  function RulesValue(rules: seq<string>): string {
    if rules == [] then "-" else JoinComma(rules)
  }

  function HeaderTags(e: Entry, rules: seq<string>): seq<Tag> {
    [Tag("request", e.id), Tag("outcome", e.outcome), Tag("rules", RulesValue(rules)),
     Tag("chain", e.chain), Tag("safe", e.safe), Tag("charter", e.charter), Tag("proposed", e.proposed),
     Tag("record", e.recordHash)]
  }

  function TagLine(tag: Tag): string {
    tag.key + ": " + tag.value
  }

  function TagLines(tags: seq<Tag>): seq<string> {
    seq(|tags|, i requires 0 <= i < |tags| => TagLine(tags[i]))
  }

  function Item(name: string, value: string): string {
    "- " + name + ": " + value
  }

  function Items(names: seq<string>, values: seq<string>): seq<string>
    requires |names| == |values|
  {
    seq(|names|, i requires 0 <= i < |names| => Item(names[i], values[i]))
  }

  const PROPOSAL_NAMES := [
    "Oracle", "Consensus", "Charter name", "Gnosis Chain block", "Gnosis Chain transaction",
    "Ethereum Mainnet block before", "Safe chain block before", "Epoch", "Oracle data", "Safe transaction hash"]

  const TRANSACTION_NAMES := [
    "Chain ID", "Safe", "To", "Value", "Data", "Operation", "Safe tx gas", "Base gas", "Gas price", "Gas token",
    "Refund receiver", "Nonce"]

  const RULING_NAMES := ["Outcome", "Frozen", "Deadline", "Record", "Context"]

  function ProposalValues(lib: Library, e: Entry): seq<string> {
    [e.oracle, e.consensus, lib.quote(e.charterName), e.block + " (" + e.proposed + ")", e.txHash, e.ethereumBlock,
     e.safeBlock, e.epoch, e.oracleData, e.safeTxHash]
  }

  function TransactionValues(e: Entry): seq<string> {
    [e.chain, e.safe, e.to, e.value, e.data, e.operation, e.safeTxGas, e.baseGas, e.gasPrice, e.gasToken,
     e.refundReceiver, e.nonce]
  }

  function VoteText(lib: Library, v: VoteLine): string {
    Item(v.sentinel, if v.reason == "" then v.vote else v.vote + ", reason " + lib.quote(v.reason))
  }

  function VoteTexts(lib: Library, votes: seq<VoteLine>): seq<string> {
    seq(|votes|, i requires 0 <= i < |votes| => VoteText(lib, votes[i]))
  }

  function VoteLines(lib: Library, votes: seq<VoteLine>): seq<string> {
    ["", "## Votes", ""] + if votes == [] then ["None."] else VoteTexts(lib, votes)
  }

  // Whether the context is a reference to the document, as "ipfs://<cid>" or "<cid>".
  predicate IsReference(lib: Library, context: string) {
    IsCid(lib, context) || ("ipfs://" <= context && IsCid(lib, context[7..]))
  }

  predicate IsCid(lib: Library, text: string) {
    "b" <= text && lib.isCid(text[1..])
  }

  function ContextText(lib: Library, context: string): string {
    if IsReference(lib, context) then context + ", which references the document below" else "the document below"
  }

  function RulingValues(lib: Library, e: Entry): seq<string> {
    [e.outcome, "block " + e.frozen, "block " + e.deadline, "block " + e.recordBlock + ", transaction " + e.recordHash,
     ContextText(lib, e.context)]
  }

  function ProposalLines(lib: Library, e: Entry): seq<string> {
    ["", "# Ruling on request " + e.id, "", "## Proposal", ""] + Items(PROPOSAL_NAMES, ProposalValues(lib, e))
  }

  function TransactionLines(e: Entry): seq<string> {
    ["", "## Safe transaction", ""] + Items(TRANSACTION_NAMES, TransactionValues(e))
  }

  function RulingLines(lib: Library, e: Entry): seq<string> {
    ["", "## Ruling", ""] + Items(RULING_NAMES, RulingValues(lib, e))
  }

  function ReportLines(lib: Library, e: Entry): seq<string> {
    ProposalLines(lib, e) + TransactionLines(e) + VoteLines(lib, e.votes) + RulingLines(lib, e)
  }

  function HeaderLines(e: Entry, rules: seq<string>): seq<string> {
    ["---"] + TagLines(HeaderTags(e, rules)) + ["---"]
  }

  // The file: the header, the report, and the document.
  function File(lib: Library, e: Entry): string {
    Lines(HeaderLines(e, RulesOf(lib, e.document)) + ReportLines(lib, e)) + MARKER + e.document
  }

  method Append(buffer: string, lines: seq<string>, ghost before: seq<string>) returns (now: string)
    requires buffer == Lines(before)
    ensures now == Lines(before + lines)
  {
    now := buffer;
    assert before + [] == before;
    for i := 0 to |lines|
      invariant now == Lines(before + lines[..i])
    {
      assert before + lines[..i + 1] == (before + lines[..i]) + [lines[i]];
      LinesAppend(before + lines[..i], lines[i]);
      now := now + lines[i] + "\n";
    }
    assert lines[..|lines|] == lines;
  }

  lemma FiveParts(h: seq<string>, p: seq<string>, t: seq<string>, v: seq<string>, r: seq<string>)
    ensures h + p + t + v + r == h + (p + t + v + r)
  {
  }

  // Prints the file into a buffer.
  method Markdown(lib: Library, e: Entry) returns (content: string)
    ensures content == File(lib, e)
  {
    var cited := RunRules(lib, e.document);
    var header := HeaderLines(e, cited);
    var b := Append("", header, []);
    assert [] + header == header;
    var proposal := ProposalLines(lib, e);
    b := Append(b, proposal, header);
    var transaction := TransactionLines(e);
    b := Append(b, transaction, header + proposal);
    var votes := PrintVotes(lib, e.votes);
    b := Append(b, votes, header + proposal + transaction);
    var ruling := RulingLines(lib, e);
    b := Append(b, ruling, header + proposal + transaction + votes);
    FiveParts(header, proposal, transaction, votes, ruling);
    content := b + MARKER + e.document;
  }

  method PrintVotes(lib: Library, votes: seq<VoteLine>) returns (lines: seq<string>)
    ensures lines == VoteLines(lib, votes)
  {
    lines := ["", "## Votes", ""];
    for i := 0 to |votes|
      invariant lines == ["", "## Votes", ""] + VoteTexts(lib, votes[..i])
    {
      assert VoteTexts(lib, votes[..i + 1]) == VoteTexts(lib, votes[..i]) + [VoteText(lib, votes[i])];
      lines := lines + [VoteText(lib, votes[i])];
    }
    assert votes[..|votes|] == votes;
    if |votes| == 0 {
      lines := lines + ["None."];
    }
  }

  // ---- Parsing --------------------------------------------------------------------------

  predicate IsKey(key: string) {
    key != "" && ' ' !in key && '\t' !in key
  }

  // The tag of a line of a header, if it is "key: value".
  function TagOf(lib: Library, line: string): Option<Tag> {
    match Cut(line, ":")
    case None => None
    case Some((key, value)) => if IsKey(key) then Some(Tag(key, lib.trim(value))) else None
  }

  // The tags of the lines of text up to a "---" line.
  function TagsUntilEnd(lib: Library, text: string): Result<seq<Tag>>
    decreases |text|
  {
    match Cut(text, "\n")
    case None => Err
    case Some((line, after)) =>
      if line == "---" then Ok([])
      else if TagOf(lib, line).None? then Err
      else
        CutIsShorter(text, "\n");
        match TagsUntilEnd(lib, after)
        case Err => Err
        case Ok(tags) => Ok([TagOf(lib, line).value] + tags)
  }

  const FENCE := "---\n"

  function Header(lib: Library, text: string): Result<seq<Tag>> {
    if FENCE <= text then TagsUntilEnd(lib, text[4..]) else Err
  }

  method ParseHeader(lib: Library, text: string) returns (header: Result<seq<Tag>>)
    ensures header == Header(lib, text)
  {
    if !(FENCE <= text) { return Err; }
    var rest := text[4..];
    var tags: seq<Tag> := [];
    PrependNothing(TagsUntilEnd(lib, rest));
    while true
      invariant Header(lib, text) == Prepend(tags, TagsUntilEnd(lib, rest))
      decreases |rest|
    {
      var cut := Cut(rest, "\n");
      if cut.None? { return Err; }
      CutIsShorter(rest, "\n");
      var (line, after) := cut.value;
      if line == "---" {
        assert tags + [] == tags;
        return Ok(tags);
      }
      var tag := TagOf(lib, line);
      if tag.None? { return Err; }
      PrependNext(tags, tag.value, TagsUntilEnd(lib, after));
      rest := after;
      tags := tags + [tag.value];
    }
  }

  function Prepend(tags: seq<Tag>, rest: Result<seq<Tag>>): Result<seq<Tag>> {
    match rest
    case Err => Err
    case Ok(more) => Ok(tags + more)
  }

  lemma PrependNothing(rest: Result<seq<Tag>>)
    ensures Prepend([], rest) == rest
  {
    if rest.Ok? {
      assert [] + rest.value == rest.value;
    }
  }

  lemma PrependNext(tags: seq<Tag>, tag: Tag, rest: Result<seq<Tag>>)
    ensures Prepend(tags + [tag], rest) == Prepend(tags, Prepend([tag], rest))
  {
    if rest.Ok? {
      assert (tags + [tag]) + rest.value == tags + ([tag] + rest.value);
    }
  }

  // The tags of a file's header, and of its document's.
  datatype FileTags = FileTags(header: seq<Tag>, document: seq<Tag>)

  // The tags of a document: none if it has no header, or a malformed one.
  function DocumentTags(lib: Library, document: string): seq<Tag> {
    match Header(lib, document)
    case Err => []
    case Ok(tags) => tags
  }

  // An error if the file's own header is malformed, or it has no document.
  function TagsOf(lib: Library, content: string): Result<FileTags> {
    match Header(lib, content)
    case Err => Err
    case Ok(header) =>
      match Cut(content, MARKER)
      case None => Err
      case Some((_, document)) => Ok(FileTags(header, DocumentTags(lib, document)))
  }

  method Tags(lib: Library, content: string) returns (tags: Result<FileTags>)
    ensures tags == TagsOf(lib, content)
  {
    var header := ParseHeader(lib, content);
    if header.Err? { return Err; }
    var cut := Cut(content, MARKER);
    if cut.None? { return Err; }
    var document := [];
    if FENCE <= cut.value.1 {
      var parsed := ParseHeader(lib, cut.value.1);
      if parsed.Ok? {
        document := parsed.value;
      }
    }
    return Ok(FileTags(header.value, document));
  }
}
