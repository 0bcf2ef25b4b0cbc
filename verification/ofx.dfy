/** OFX import: parseOFX, extractOFXValue, parseOFXDate and
    convertOFXToTransactions (lib/utils/import-export.ts). An OFX download
    is read by searching for tags in the text, not by parsing it as SGML or
    XML. */
module Ofx {
  import opened Results
  import opened Text
  import opened Numbers
  import opened Transactions

  /** A statement transaction as parseOFX returns it (OFXTransaction). The
      memo is None where the object leaves it undefined; parseOFX always
      sets it, possibly to "". */
  datatype OfxTransaction = OfxTransaction(
    kind: string,
    date: string,
    amount: Num,
    fitId: string,
    name: string,
    memo: Option<string>)

  // ---------------------------------------------------------------------
  // extractOFXValue
  // ---------------------------------------------------------------------

  /** The opening tag `<TAG>`. */
  function OpenTag(tag: string): string {
    "<" + tag + ">"
  }

  /** The end of the run of characters other than '<' that starts at i. */
  function RunEnd(s: string, i: nat): (r: nat)
    requires i <= |s|
    decreases |s| - i
    ensures i <= r <= |s|
  {
    if i < |s| && s[i] != '<' then RunEnd(s, i + 1) else i
  }

  /** The run holds no '<' and stops at a '<' or at the end. */
  lemma {:induction false} RunEndSpec(s: string, i: nat)
    requires i <= |s|
    decreases |s| - i
    ensures forall k :: i <= k < RunEnd(s, i) ==> s[k] != '<'
    ensures RunEnd(s, i) == |s| || s[RunEnd(s, i)] == '<'
  {
    if i < |s| && s[i] != '<' {
      RunEndSpec(s, i + 1);
    }
  }

  /** The pattern `<TAG>([^<]+)` matches at k: the opening tag is there and
      a character other than '<' follows it. */
  predicate TagMatchAt(block: string, tag: string, k: nat) {
    OccursAt(block, OpenTag(tag), k) && k + |OpenTag(tag)| < |block| && block[k + |OpenTag(tag)|] != '<'
  }

  /** Where the pattern first matches at or after from, if anywhere. */
  function FirstTagMatch(block: string, tag: string, from: nat): (r: Option<nat>)
    decreases |block| - from
    ensures r.Some? ==> from <= r.value && r.value + |OpenTag(tag)| < |block| && block[r.value + |OpenTag(tag)|] != '<'
  {
    if from >= |block| then None
    else if TagMatchAt(block, tag, from) then Some(from)
    else FirstTagMatch(block, tag, from + 1)
  }

  /** FirstTagMatch finds the leftmost match: an opening tag directly
      followed by '<' or by the end is passed over. */
  lemma {:induction false} FirstTagMatchSpec(block: string, tag: string, from: nat)
    decreases |block| - from
    ensures var r := FirstTagMatch(block, tag, from);
      r.Some? ==> TagMatchAt(block, tag, r.value) && forall k :: from <= k < r.value ==> !TagMatchAt(block, tag, k)
    ensures FirstTagMatch(block, tag, from).None? ==> forall k :: from <= k ==> !TagMatchAt(block, tag, k)
  {
    if from >= |block| {
      forall k | from <= k
        ensures !TagMatchAt(block, tag, k)
      {
      }
    } else if !TagMatchAt(block, tag, from) {
      assert FirstTagMatch(block, tag, from) == FirstTagMatch(block, tag, from + 1);
      FirstTagMatchSpec(block, tag, from + 1);
    }
  }

  /** extractOFXValue: the text after the first matching `<TAG>` up to the
      next '<' (or the end), trimmed; "" when the pattern does not match. */
  function ExtractOfxValue(block: string, tag: string): string {
    match FirstTagMatch(block, tag, 0)
    case None => ""
    case Some(k) =>
      var start := k + |OpenTag(tag)|;
      Trim(block[start..RunEnd(block, start)])
  }

  /** A character absent from s is absent from its trimmed form. */
  lemma TrimAvoids(s: string, c: char)
    requires c !in s
    ensures c !in Trim(s)
  {
    var t := TrimStart(s);
    assert forall k :: 0 <= k < |t| ==> t[k] == s[SpaceEnd(s, 0) + k];
    var u := Trim(s);
    assert forall k :: 0 <= k < |u| ==> u[k] == t[k];
  }

  /** The capture `([^<]+)` from start: a non-empty run of characters other
      than '<' that ends at the next '<' or at the end; trimmed, it is
      still free of '<'. */
  lemma CaptureSpec(block: string, start: nat)
    requires start < |block| && block[start] != '<'
    ensures var end := RunEnd(block, start);
      && start < end
      && (end == |block| || block[end] == '<')
      && (forall j :: start <= j < end ==> block[j] != '<')
      && IsTrimmed(Trim(block[start..end]))
      && '<' !in Trim(block[start..end])
  {
    var end := RunEnd(block, start);
    RunEndSpec(block, start);
    var capture := block[start..end];
    TrimSpec(capture);
    assert forall j :: 0 <= j < |capture| ==> capture[j] == block[start + j];
    TrimAvoids(capture, '<');
  }

  /** What extractOFXValue returns: "" when no `<TAG>` is followed by a
      character other than '<'; otherwise the trimmed capture, a non-empty
      run of characters other than '<' that starts right after the first
      such tag and ends at the next '<' or at the end of the block. Either
      way the value is trimmed and holds no '<'. */
  lemma ExtractOfxValueSpec(block: string, tag: string)
    ensures FirstTagMatch(block, tag, 0).None? ==> ExtractOfxValue(block, tag) == ""
    ensures FirstTagMatch(block, tag, 0).Some? ==>
      var start := FirstTagMatch(block, tag, 0).value + |OpenTag(tag)|;
      var end := RunEnd(block, start);
      && start < end
      && (end == |block| || block[end] == '<')
      && (forall j :: start <= j < end ==> block[j] != '<')
      && ExtractOfxValue(block, tag) == Trim(block[start..end])
    ensures IsTrimmed(ExtractOfxValue(block, tag))
    ensures '<' !in ExtractOfxValue(block, tag)
  {
    match FirstTagMatch(block, tag, 0)
    case None =>
      assert IsTrimmed("");
    case Some(k) =>
      var start := k + |OpenTag(tag)|;
      var capture := block[start..RunEnd(block, start)];
      assert ExtractOfxValue(block, tag) == Trim(capture);
      CaptureSpec(block, start);
  }

  // ---------------------------------------------------------------------
  // parseOFXDate
  // ---------------------------------------------------------------------

  function Min(a: nat, b: nat): nat {
    if a <= b then a else b
  }

  /** `s.substring(a, b)` for a <= b: both indices are clamped to the
      length. */
  function Substring(s: string, a: nat, b: nat): (r: string)
    requires a <= b
    ensures |r| == Min(b, |s|) - Min(a, |s|)
  {
    s[Min(a, |s|)..Min(b, |s|)]
  }

  /** parseOFXDate: `YYYY-MM-DD` from the leading `YYYYMMDD` of an OFX
      date; shorter input gives shorter pieces. */
  function ParseOfxDate(s: string): string {
    Substring(s, 0, 4) + "-" + Substring(s, 4, 6) + "-" + Substring(s, 6, 8)
  }

  /** The result is the first eight characters (fewer when the input is
      shorter) with two hyphens added: after the year and after the month.
      Dropping those two hyphens gives the leading characters back, and the
      rest of the input (the time and the time zone) is ignored. */
  lemma ParseOfxDateSpec(s: string)
    ensures |ParseOfxDate(s)| == Min(|s|, 8) + 2
    ensures |s| >= 8 ==> ParseOfxDate(s)[4] == '-' && ParseOfxDate(s)[7] == '-'
    ensures |s| >= 8 ==> ParseOfxDate(s)[..4] + ParseOfxDate(s)[5..7] + ParseOfxDate(s)[8..] == s[..8]
  {
    if |s| >= 8 {
      var r := ParseOfxDate(s);
      assert r == s[..4] + "-" + s[4..6] + "-" + s[6..8];
      assert r[..4] == s[..4] && r[5..7] == s[4..6] && r[8..] == s[6..8];
      assert s[..4] + s[4..6] + s[6..8] == s[..8];
    }
  }

  /** Only the first eight characters matter: the time and time zone that
      follow the date are dropped. */
  lemma ParseOfxDateIgnoresTime(s: string, t: string)
    requires |s| >= 8 && |t| >= 8 && s[..8] == t[..8]
    ensures ParseOfxDate(s) == ParseOfxDate(t)
  {
    assert s[..4] == s[..8][..4] && t[..4] == t[..8][..4];
    assert s[4..6] == s[..8][4..6] && t[4..6] == t[..8][4..6];
    assert s[6..8] == s[..8][6..8] && t[6..8] == t[..8][6..8];
  }

  // ---------------------------------------------------------------------
  // parseOFX
  // ---------------------------------------------------------------------

  const StmtOpen: string := "<STMTTRN>"
  const StmtClose: string := "</STMTTRN>"

  /** One successful `stmtTrnRegex.exec`: where the match starts, the
      captured block, and the lastIndex it leaves behind. */
  datatype BlockMatch = BlockMatch(index: nat, block: string, next: nat)

  /** `/<STMTTRN>([\s\S]*?)<\/STMTTRN>/g.exec` from lastIndex from: the
      first opening tag at or after from, and the block up to the first
      closing tag after it. When that opening tag has no closing tag after
      it, no later one has either, and there is no match. */
  function NextBlock(text: string, from: nat): (r: Option<BlockMatch>)
    ensures r.Some? ==> from <= r.value.index < r.value.next <= |text|
  {
    match FindFrom(text, StmtOpen, from)
    case None => None
    case Some(o) =>
      match FindFrom(text, StmtClose, o + |StmtOpen|)
      case None => None
      case Some(c) => Some(BlockMatch(o, text[o + |StmtOpen|..c], c + |StmtClose|))
  }

  /** A match is the leftmost opening tag at or after from, the block after
      it up to the first closing tag (the lazy `*?`), and lastIndex just
      past that closing tag; there is no match exactly when no opening tag
      at or after from has a closing tag after it. */
  lemma NextBlockSpec(text: string, from: nat)
    ensures NextBlock(text, from).Some? ==>
      var m := NextBlock(text, from).value;
      && OccursAt(text, StmtOpen, m.index)
      && (forall k :: from <= k < m.index ==> !OccursAt(text, StmtOpen, k))
      && m.index + |StmtOpen| + |m.block| + |StmtClose| == m.next
      && text[m.index + |StmtOpen|..m.index + |StmtOpen| + |m.block|] == m.block
      && OccursAt(text, StmtClose, m.index + |StmtOpen| + |m.block|)
      && (forall k :: m.index + |StmtOpen| <= k < m.index + |StmtOpen| + |m.block| ==> !OccursAt(text, StmtClose, k))
    ensures NextBlock(text, from).None? ==>
      forall o, c :: from <= o && o + |StmtOpen| <= c && OccursAt(text, StmtOpen, o) ==> !OccursAt(text, StmtClose, c)
  {
    FindFromSpec(text, StmtOpen, from);
    match FindFrom(text, StmtOpen, from)
    case None =>
    case Some(o) =>
      FindFromSpec(text, StmtClose, o + |StmtOpen|);
      match FindFrom(text, StmtClose, o + |StmtOpen|)
      case None =>
        forall o', c | from <= o' && o' + |StmtOpen| <= c && OccursAt(text, StmtOpen, o')
          ensures !OccursAt(text, StmtClose, c)
        {
          assert o <= o';
        }
      case Some(c) =>
  }

  /** All the matches from lastIndex from on, in the order exec finds
      them. */
  function Matches(text: string, from: nat): (r: seq<BlockMatch>)
    decreases |text| - from
  {
    match NextBlock(text, from)
    case None => []
    case Some(m) => [m] + Matches(text, m.next)
  }

  /** The matches do not overlap and come in document order: each starts at
      or after from, and each starts at or after the end of the one
      before. */
  lemma {:induction false} MatchesInOrder(text: string, from: nat)
    decreases |text| - from
    ensures forall i :: 0 <= i < |Matches(text, from)| ==> from <= Matches(text, from)[i].index
    ensures forall i :: 0 <= i < |Matches(text, from)| ==>
      Matches(text, from)[i].index < Matches(text, from)[i].next <= |text|
    ensures forall i, j :: 0 <= i < j < |Matches(text, from)| ==>
      Matches(text, from)[i].next <= Matches(text, from)[j].index
  {
    match NextBlock(text, from)
    case None =>
    case Some(m) =>
      MatchesInOrder(text, m.next);
  }

  /** The body of the loop in parseOFX for one block: the transaction, when
      TRNTYPE, DTPOSTED, TRNAMT and FITID are all non-empty. */
  function ReadBlock(block: string): Option<OfxTransaction>
  {
    var trnType := ExtractOfxValue(block, "TRNTYPE");
    var dtPosted := ExtractOfxValue(block, "DTPOSTED");
    var trnAmt := ExtractOfxValue(block, "TRNAMT");
    var fitId := ExtractOfxValue(block, "FITID");
    var name := ExtractOfxValue(block, "NAME");
    var memo := ExtractOfxValue(block, "MEMO");
    if trnType != "" && dtPosted != "" && trnAmt != "" && fitId != "" then
      Some(OfxTransaction(trnType, ParseOfxDate(dtPosted), ParseFloat(trnAmt), fitId,
        if name != "" then name else "Unknown", Some(memo)))
    else None
  }

  /** A block is kept exactly when TRNTYPE, DTPOSTED, TRNAMT and FITID are
      all non-empty; the date is converted, the amount read with parseFloat,
      and an empty name becomes "Unknown". */
  lemma ReadBlockSpec(block: string)
    ensures ReadBlock(block).Some? <==>
      && ExtractOfxValue(block, "TRNTYPE") != ""
      && ExtractOfxValue(block, "DTPOSTED") != ""
      && ExtractOfxValue(block, "TRNAMT") != ""
      && ExtractOfxValue(block, "FITID") != ""
    ensures ReadBlock(block).Some? ==>
      && ReadBlock(block).value.kind == ExtractOfxValue(block, "TRNTYPE")
      && ReadBlock(block).value.date == ParseOfxDate(ExtractOfxValue(block, "DTPOSTED"))
      && ReadBlock(block).value.amount == ParseFloat(ExtractOfxValue(block, "TRNAMT"))
      && ReadBlock(block).value.fitId == ExtractOfxValue(block, "FITID")
      && (ExtractOfxValue(block, "NAME") != "" ==> ReadBlock(block).value.name == ExtractOfxValue(block, "NAME"))
      && (ExtractOfxValue(block, "NAME") == "" ==> ReadBlock(block).value.name == "Unknown")
      && ReadBlock(block).value.memo == Some(ExtractOfxValue(block, "MEMO"))
  {
  }

  /** The transactions a block reader makes of a list of matches, in
      order; the blocks it rejects are dropped. */
  function ReadBlocks(read: string -> Option<OfxTransaction>, ms: seq<BlockMatch>): (r: seq<OfxTransaction>)
    ensures |r| <= |ms|
  {
    if ms == [] then []
    else
      var first := read(ms[0].block);
      (if first.Some? then [first.value] else []) + ReadBlocks(read, ms[1..])
  }

  /** What parseOFX returns. */
  function ParseOfxSpec(text: string): seq<OfxTransaction> {
    ReadBlocks(ReadBlock, Matches(text, 0))
  }

  /** One exec and one block read. */
  lemma ReadBlocksStep(read: string -> Option<OfxTransaction>, text: string, from: nat, done: seq<OfxTransaction>)
    requires NextBlock(text, from).Some?
    ensures var m := NextBlock(text, from).value;
      done + ReadBlocks(read, Matches(text, from))
        == (if read(m.block).Some? then done + [read(m.block).value] else done) + ReadBlocks(read, Matches(text, m.next))
  {
    var m := NextBlock(text, from).value;
    assert Matches(text, from) == [m] + Matches(text, m.next);
    assert ([m] + Matches(text, m.next))[1..] == Matches(text, m.next);
  }

  /** parseOFX: runs exec until it finds no more blocks, appending the
      transaction of every complete block. */
  method ParseOfx(text: string) returns (transactions: seq<OfxTransaction>)
    ensures transactions == ParseOfxSpec(text)
  {
    transactions := [];
    var lastIndex: nat := 0;
    var found := NextBlock(text, lastIndex);
    while found.Some?
      invariant found == NextBlock(text, lastIndex)
      invariant ParseOfxSpec(text) == transactions + ReadBlocks(ReadBlock, Matches(text, lastIndex))
      decreases |text| - lastIndex
    {
      var m := found.value;
      ReadBlocksStep(ReadBlock, text, lastIndex, transactions);
      var trn := ReadBlock(m.block);
      if trn.Some? {
        transactions := transactions + [trn.value];
      }
      lastIndex := m.next;
      found := NextBlock(text, lastIndex);
    }
  }

  /** A transaction from a complete block: non-empty type, FITID and name,
      and a memo. */
  predicate Complete(t: OfxTransaction) {
    t.kind != "" && t.fitId != "" && t.name != "" && t.memo.Some?
  }

  /** ReadBlock only makes complete transactions. */
  lemma ReadBlockComplete()
    ensures forall block :: ReadBlock(block).Some? ==> Complete(ReadBlock(block).value)
  {
    forall block | ReadBlock(block).Some?
      ensures Complete(ReadBlock(block).value)
    {
      ReadBlockSpec(block);
    }
  }

  /** Every transaction read by a reader that makes only complete ones is
      complete. */
  lemma {:induction false} ReadBlocksComplete(read: string -> Option<OfxTransaction>, ms: seq<BlockMatch>)
    requires forall block :: read(block).Some? ==> Complete(read(block).value)
    ensures forall i :: 0 <= i < |ReadBlocks(read, ms)| ==> Complete(ReadBlocks(read, ms)[i])
  {
    if ms != [] {
      ReadBlocksComplete(read, ms[1..]);
    }
  }

  /** Every transaction parseOFX returns has a non-empty type, FITID and
      name, and a memo. */
  lemma ParseOfxComplete(text: string)
    ensures forall i :: 0 <= i < |ParseOfxSpec(text)| ==> Complete(ParseOfxSpec(text)[i])
  {
    ReadBlockComplete();
    ReadBlocksComplete(ReadBlock, Matches(text, 0));
  }

  /** When every block is complete, there is one transaction per block, in
      document order. */
  lemma {:induction false} ReadBlocksAll(read: string -> Option<OfxTransaction>, ms: seq<BlockMatch>)
    requires forall i :: 0 <= i < |ms| ==> read(ms[i].block).Some?
    ensures |ReadBlocks(read, ms)| == |ms|
    ensures forall i :: 0 <= i < |ms| ==> ReadBlocks(read, ms)[i] == read(ms[i].block).value
  {
    if ms != [] {
      ReadBlocksAll(read, ms[1..]);
    }
  }

  /** A rejected block adds nothing: dropping it from the list of matches
      does not change the result. */
  lemma {:induction false} ReadBlocksDrops(read: string -> Option<OfxTransaction>, ms: seq<BlockMatch>, i: nat)
    requires i < |ms|
    requires read(ms[i].block).None?
    ensures ReadBlocks(read, ms) == ReadBlocks(read, ms[..i] + ms[i + 1..])
  {
    if i == 0 {
      assert ms[..0] + ms[1..] == ms[1..];
    } else {
      ReadBlocksDrops(read, ms[1..], i - 1);
      assert ms[1..][..i - 1] + ms[1..][i..] == (ms[..i] + ms[i + 1..])[1..];
    }
  }

  /** parseOFX, block by block: with every block complete it returns one
      transaction per block, in document order, and an incomplete block is
      silently dropped. */
  lemma ParseOfxBlocks(text: string)
    ensures (forall i :: 0 <= i < |Matches(text, 0)| ==> ReadBlock(Matches(text, 0)[i].block).Some?) ==>
      |ParseOfxSpec(text)| == |Matches(text, 0)| &&
      forall i :: 0 <= i < |Matches(text, 0)| ==> ParseOfxSpec(text)[i] == ReadBlock(Matches(text, 0)[i].block).value
    ensures forall i :: 0 <= i < |Matches(text, 0)| && ReadBlock(Matches(text, 0)[i].block).None? ==>
      ParseOfxSpec(text) == ReadBlocks(ReadBlock, Matches(text, 0)[..i] + Matches(text, 0)[i + 1..])
  {
    var ms := Matches(text, 0);
    if forall i :: 0 <= i < |ms| ==> ReadBlock(ms[i].block).Some? {
      ReadBlocksAll(ReadBlock, ms);
    }
    forall i | 0 <= i < |ms| && ReadBlock(ms[i].block).None?
      ensures ParseOfxSpec(text) == ReadBlocks(ReadBlock, ms[..i] + ms[i + 1..])
    {
      ReadBlocksDrops(ReadBlock, ms, i);
    }
  }

  // ---------------------------------------------------------------------
  // convertOFXToTransactions
  // ---------------------------------------------------------------------

  /** The import row for one bank transaction: the direction comes from the
      sign of the amount, the amount loses its sign, the name becomes the
      description and the memo the notes. */
  function OfxToRow(ofx: OfxTransaction): (r: TransactionRow)
    ensures r.kind == Income <==> IsNonNegative(ofx.amount)
    ensures r.kind == Expense <==> !IsNonNegative(ofx.amount)
    ensures r.amount == Abs(ofx.amount)
    ensures r.date == ofx.date && r.description == ofx.name && r.notes == ofx.memo
    ensures r.category.None? && r.account.None? && r.fromAccount.None? && r.toAccount.None?
  {
    TransactionRow(
      ofx.date,
      if IsNonNegative(ofx.amount) then Income else Expense,
      Abs(ofx.amount),
      ofx.name,
      None, None, None, None,
      ofx.memo)
  }

  /** convertOFXToTransactions. */
  function ConvertOfxToTransactions(ofx: seq<OfxTransaction>): (r: seq<TransactionRow>)
    ensures |r| == |ofx|
    ensures forall i :: 0 <= i < |ofx| ==> r[i] == OfxToRow(ofx[i])
  {
    seq(|ofx|, i requires 0 <= i < |ofx| => OfxToRow(ofx[i]))
  }

  /** The signed amount comes back from the row: the amount itself for
      income and its negation for an expense. A NaN amount (TRNAMT that
      does not start like a number) becomes an expense of NaN. */
  lemma SignRecovered(ofx: OfxTransaction)
    ensures var r := OfxToRow(ofx);
      !ofx.amount.NaN? ==> ofx.amount == (if r.kind == Income then r.amount else Negate(r.amount))
    ensures ofx.amount.NaN? ==> OfxToRow(ofx).kind == Expense && OfxToRow(ofx).amount.NaN?
    ensures OfxToRow(ofx).kind != Transfer
  {
  }

  /** Converting a concatenation converts each part: the rows keep the
      order of the bank transactions. */
  lemma ConvertAppend(a: seq<OfxTransaction>, b: seq<OfxTransaction>)
    ensures ConvertOfxToTransactions(a + b) == ConvertOfxToTransactions(a) + ConvertOfxToTransactions(b)
  {
  }
}
