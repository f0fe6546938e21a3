// Reading the report of a corpus file: each value is shown at its name, in its section.
module ReportTheorems {
  import opened Wrappers
  import opened Text
  import opened Corpus

  // The value at a name in the lines of a section: what follows "- name: " in the first
  // line that starts with it.
  function ValueAt(lines: seq<string>, name: string): Option<string> {
    if lines == [] then None
    else if "- " + name + ": " <= lines[0] then Some(lines[0][|name| + 4..])
    else ValueAt(lines[1..], name)
  }

  predicate IsName(name: string) {
    ':' !in name
  }

  lemma {:induction false} OtherName(a: string, b: string, value: string)
    requires IsName(a) && IsName(b) && "- " + a + ": " <= Item(b, value)
    ensures a == b
  {
    var start, line := "- " + a + ": ", Item(b, value);
    var rest := line[|start|..];
    assert line == ("- " + b) + [':'] + (" " + value);
    assert line == start + rest == ("- " + a) + [':'] + (" " + rest);
    CutAtCharacter("- " + b, ':', " " + value);
    CutAtCharacter("- " + a, ':', " " + rest);
    assert ("- " + a)[2..] == a && ("- " + b)[2..] == b;
  }

  // Of items with different names, each value is at its name.
  lemma {:induction false} ItemsShow(names: seq<string>, values: seq<string>, i: nat)
    requires |names| == |values| && i < |names| && forall name :: name in names ==> IsName(name)
    requires forall j :: 0 <= j < i ==> names[j] != names[i]
    ensures ValueAt(Items(names, values), names[i]) == Some(values[i])
  {
    var lines := Items(names, values);
    assert names[i] in names && names[0] in names;
    if i == 0 {
      assert lines[0] == "- " + names[0] + ": " + values[0];
      assert lines[0][|names[0]| + 4..] == values[0];
    } else {
      if "- " + names[i] + ": " <= lines[0] {
        OtherName(names[i], names[0], values[0]);
      }
      assert lines[1..] == Items(names[1..], values[1..]);
      ItemsShow(names[1..], values[1..], i - 1);
    }
  }

  lemma {:induction false} AfterTitles(titles: seq<string>, lines: seq<string>, name: string)
    requires forall title :: title in titles ==> title == "" || title[0] == '#'
    ensures ValueAt(titles + lines, name) == ValueAt(lines, name)
  {
    if titles == [] {
      assert titles + lines == lines;
    } else {
      assert titles[0] in titles && (titles + lines)[1..] == titles[1..] + lines;
      assert ("- " + name + ": ")[0] == '-';
      AfterTitles(titles[1..], lines, name);
    }
  }

  lemma NamesDiffer()
    ensures forall j, k :: 0 <= j < k < |PROPOSAL_NAMES| ==> PROPOSAL_NAMES[j] != PROPOSAL_NAMES[k]
    ensures forall j, k :: 0 <= j < k < |TRANSACTION_NAMES| ==> TRANSACTION_NAMES[j] != TRANSACTION_NAMES[k]
    ensures forall j, k :: 0 <= j < k < |RULING_NAMES| ==> RULING_NAMES[j] != RULING_NAMES[k]
  {
  }

  lemma ProposalNames()
    ensures forall name :: name in PROPOSAL_NAMES ==> IsName(name)
  {
  }

  lemma TransactionNames()
    ensures forall name :: name in TRANSACTION_NAMES ==> IsName(name)
  {
  }

  lemma RulingNames()
    ensures forall name :: name in RULING_NAMES ==> IsName(name)
  {
  }

  // The section of the proposal shows each of its values at its name.
  lemma {:induction false} ProposalShows(lib: Library, e: Entry)
    ensures var lines := ProposalLines(lib, e);
            && ValueAt(lines, "Oracle") == Some(e.oracle)
            && ValueAt(lines, "Consensus") == Some(e.consensus)
            && ValueAt(lines, "Charter name") == Some(lib.quote(e.charterName))
            && ValueAt(lines, "Gnosis Chain block") == Some(e.block + " (" + e.proposed + ")")
            && ValueAt(lines, "Gnosis Chain transaction") == Some(e.txHash)
            && ValueAt(lines, "Ethereum Mainnet block before") == Some(e.ethereumBlock)
            && ValueAt(lines, "Safe chain block before") == Some(e.safeBlock)
            && ValueAt(lines, "Epoch") == Some(e.epoch)
            && ValueAt(lines, "Oracle data") == Some(e.oracleData)
            && ValueAt(lines, "Safe transaction hash") == Some(e.safeTxHash)
  {
    var titles, values := ["", "# Ruling on request " + e.id, "", "## Proposal", ""], ProposalValues(lib, e);
    NamesDiffer();
    ProposalNames();
    forall i | 0 <= i < |PROPOSAL_NAMES| ensures ValueAt(ProposalLines(lib, e), PROPOSAL_NAMES[i]) == Some(values[i]) {
      ItemsShow(PROPOSAL_NAMES, values, i);
      AfterTitles(titles, Items(PROPOSAL_NAMES, values), PROPOSAL_NAMES[i]);
    }
    assert PROPOSAL_NAMES[0] == "Oracle" && PROPOSAL_NAMES[1] == "Consensus" && PROPOSAL_NAMES[2] == "Charter name";
    assert PROPOSAL_NAMES[3] == "Gnosis Chain block" && PROPOSAL_NAMES[4] == "Gnosis Chain transaction";
    assert PROPOSAL_NAMES[5] == "Ethereum Mainnet block before";
    assert PROPOSAL_NAMES[6] == "Safe chain block before" && PROPOSAL_NAMES[7] == "Epoch" && PROPOSAL_NAMES[8] == "Oracle data";
    assert PROPOSAL_NAMES[9] == "Safe transaction hash";
  }

  // And the section of the Safe transaction.
  lemma {:induction false} TransactionShows(e: Entry)
    ensures var lines := TransactionLines(e);
            && ValueAt(lines, "Chain ID") == Some(e.chain)
            && ValueAt(lines, "Safe") == Some(e.safe)
            && ValueAt(lines, "To") == Some(e.to)
            && ValueAt(lines, "Value") == Some(e.value)
            && ValueAt(lines, "Data") == Some(e.data)
            && ValueAt(lines, "Operation") == Some(e.operation)
            && ValueAt(lines, "Safe tx gas") == Some(e.safeTxGas)
            && ValueAt(lines, "Base gas") == Some(e.baseGas)
            && ValueAt(lines, "Gas price") == Some(e.gasPrice)
            && ValueAt(lines, "Gas token") == Some(e.gasToken)
            && ValueAt(lines, "Refund receiver") == Some(e.refundReceiver)
            && ValueAt(lines, "Nonce") == Some(e.nonce)
  {
    var titles, values := ["", "## Safe transaction", ""], TransactionValues(e);
    NamesDiffer();
    TransactionNames();
    forall i | 0 <= i < |TRANSACTION_NAMES| ensures ValueAt(TransactionLines(e), TRANSACTION_NAMES[i]) == Some(values[i]) {
      ItemsShow(TRANSACTION_NAMES, values, i);
      AfterTitles(titles, Items(TRANSACTION_NAMES, values), TRANSACTION_NAMES[i]);
    }
    assert TRANSACTION_NAMES[0] == "Chain ID" && TRANSACTION_NAMES[1] == "Safe" && TRANSACTION_NAMES[2] == "To";
    assert TRANSACTION_NAMES[3] == "Value" && TRANSACTION_NAMES[4] == "Data" && TRANSACTION_NAMES[5] == "Operation";
    assert TRANSACTION_NAMES[6] == "Safe tx gas" && TRANSACTION_NAMES[7] == "Base gas";
    assert TRANSACTION_NAMES[8] == "Gas price" && TRANSACTION_NAMES[9] == "Gas token" && TRANSACTION_NAMES[10] == "Refund receiver";
    assert TRANSACTION_NAMES[11] == "Nonce";
  }

  // And the section of the ruling, with the context only if it is a reference.
  lemma {:induction false} RulingShows(lib: Library, e: Entry)
    ensures var lines := RulingLines(lib, e);
            && ValueAt(lines, "Outcome") == Some(e.outcome)
            && ValueAt(lines, "Frozen") == Some("block " + e.frozen)
            && ValueAt(lines, "Deadline") == Some("block " + e.deadline)
            && ValueAt(lines, "Record") == Some("block " + e.recordBlock + ", transaction " + e.recordHash)
            && ValueAt(lines, "Context")
               == Some(if IsReference(lib, e.context) then e.context + ", which references the document below"
                       else "the document below")
  {
    var titles, values := ["", "## Ruling", ""], RulingValues(lib, e);
    NamesDiffer();
    RulingNames();
    forall i | 0 <= i < |RULING_NAMES| ensures ValueAt(RulingLines(lib, e), RULING_NAMES[i]) == Some(values[i]) {
      ItemsShow(RULING_NAMES, values, i);
      AfterTitles(titles, Items(RULING_NAMES, values), RULING_NAMES[i]);
    }
    assert RULING_NAMES[0] == "Outcome" && RULING_NAMES[1] == "Frozen" && RULING_NAMES[2] == "Deadline";
    assert RULING_NAMES[3] == "Record" && RULING_NAMES[4] == "Context";
  }

  // The section of the votes shows each vote, in order, with its reason if it has one.
  lemma VotesShow(lib: Library, votes: seq<VoteLine>, i: nat)
    requires i < |votes|
    ensures VoteLines(lib, votes)[..3] == ["", "## Votes", ""] && |VoteLines(lib, votes)| == 3 + |votes|
    ensures var v := votes[i];
            VoteLines(lib, votes)[3 + i]
            == "- " + v.sentinel + ": " + (if v.reason == "" then v.vote else v.vote + ", reason " + lib.quote(v.reason))
  {
  }

  // A context is a reference exactly if it is a CID, or one after "ipfs://": a "b" and text
  // that is base32 of one.
  lemma ReferenceExactly(lib: Library, context: string)
    ensures IsReference(lib, context) <==> exists text ::
              lib.isCid(text) && (context == "b" + text || context == "ipfs://" + ("b" + text))
  {
    if IsReference(lib, context) {
      if IsCid(lib, context) {
        assert context == "b" + context[1..];
      } else {
        assert context[7..] == "b" + context[7..][1..] && context == "ipfs://" + context[7..];
      }
    }
    forall text | lib.isCid(text) && (context == "b" + text || context == "ipfs://" + ("b" + text))
      ensures IsReference(lib, context) {
      assert ("b" + text)[1..] == text;
      if context != "b" + text {
        assert context[7..] == "b" + text;
      }
    }
  }

  // The sections follow each other after the header, each after a title.
  lemma SectionsFollow(lib: Library, e: Entry)
    ensures var p, t, v, r := ProposalLines(lib, e), TransactionLines(e), VoteLines(lib, e.votes), RulingLines(lib, e);
            && ReportLines(lib, e) == p + t + v + r
            && p[..5] == ["", "# Ruling on request " + e.id, "", "## Proposal", ""]
            && t[..3] == ["", "## Safe transaction", ""] && v[..3] == ["", "## Votes", ""]
            && r[..3] == ["", "## Ruling", ""] && (e.votes == [] ==> v[3..] == ["None."])
  {
  }
}
