/**
 What a record is, said without the scanners: a grammar of record texts, and the theorem that the
 reader takes any stream of such texts apart into exactly those texts.

 A record is text that is not quoted, with quoted runs in between, up to a newline. Quoted runs
 may hold newlines and doubled quotes (rules 6 and 7 of section 2 of RFC 4180), and both kinds of
 text may hold a quote that a backslash escapes.
 */
module RecordGrammar {
  import opened Basics
  import opened RecordScanner

  datatype Item = Plain(b: byte) | Escaped | Doubled

  /** The bytes of an item: 92 is the backslash. */
  function Spell(item: Item, quote: byte): bytes {
    match item
    case Plain(b) => [b]
    case Escaped => [92, quote]
    case Doubled => [quote, quote]
  }

  function SpellAll(items: seq<Item>, quote: byte): bytes {
    if items == [] then [] else Spell(items[0], quote) + SpellAll(items[1..], quote)
  }

  /** Text that is not quoted holds no newline and no quote that is not escaped. */
  predicate BareOk(items: seq<Item>, quote: byte) {
    forall k :: 0 <= k < |items| ==>
      !items[k].Doubled? && (items[k].Plain? ==> items[k].b != quote && items[k].b != 10)
  }

  /**
   Quoted text holds quotes only doubled or escaped. An escaped quote that another quote follows
   would read as a doubled one, and a backslash at the end would escape the closing quote.
   */
  predicate QuotedOk(items: seq<Item>, quote: byte) {
    forall k :: 0 <= k < |items| ==> QuotedItemOk(items, k, quote)
  }

  predicate QuotedItemOk(items: seq<Item>, k: nat, quote: byte)
    requires k < |items|
  {
    match items[k]
    case Plain(b) => b != quote && (b == 92 ==> k + 1 < |items|)
    case Escaped => k + 1 < |items| && !items[k + 1].Doubled?
    case Doubled => true
  }

  /** Some bare text and a quoted run after it. */
  datatype Piece = Piece(bare: seq<Item>, quoted: seq<Item>)

  datatype RecordText = RecordText(pieces: seq<Piece>, last: seq<Item>)

  function SpellPiece(p: Piece, quote: byte): bytes {
    SpellAll(p.bare, quote) + ([quote] + (SpellAll(p.quoted, quote) + [quote]))
  }

  function SpellPieces(pieces: seq<Piece>, quote: byte): bytes {
    if pieces == [] then [] else SpellPiece(pieces[0], quote) + SpellPieces(pieces[1..], quote)
  }

  function SpellRecord(r: RecordText, quote: byte): bytes {
    SpellPieces(r.pieces, quote) + (SpellAll(r.last, quote) + [10])
  }

  /** A backslash before a quoted run would escape its opening quote. */
  predicate PieceOk(p: Piece, quote: byte) {
    && BareOk(p.bare, quote) && QuotedOk(p.quoted, quote)
    && (p.bare != [] ==> p.bare[|p.bare| - 1] != Plain(92))
  }

  /** Two quoted runs need something in between, or their quotes would read as a doubled one. */
  predicate RecordOk(r: RecordText, quote: byte) {
    && (forall k :: 0 <= k < |r.pieces| ==> PieceOk(r.pieces[k], quote) && (k > 0 ==> r.pieces[k].bare != []))
    && BareOk(r.last, quote)
  }

  // ---------------------------------------------------------------- the scan over a text

  /** The bytes at position i are those of t. */
  predicate At(data: bytes, i: nat, t: bytes) {
    i + |t| <= |data| && data[i..i + |t|] == t
  }

  lemma AtParts(data: bytes, i: nat, a: bytes, b: bytes)
    requires At(data, i, a + b)
    ensures At(data, i, a) && At(data, i + |a|, b)
  {
    var t := data[i..i + |a + b|];
    assert t[..|a|] == a && t[|a|..] == b;
    assert data[i..i + |a|] == t[..|a|];
    assert data[i + |a|..i + |a| + |b|] == t[|a|..];
  }

  lemma AtByte(data: bytes, i: nat, t: bytes, k: nat)
    requires At(data, i, t) && k < |t|
    ensures data[i + k] == t[k]
  {
    assert data[i..i + |t|][k] == t[k];
  }

  /** No record of a scan from lo ends in i..j. */
  ghost predicate NoEnd(data: bytes, quote: byte, lo: nat, i: nat, j: nat)
    requires lo <= i && j <= |data|
  {
    forall k :: i <= k < j ==> !EndsAt(data, MultiLine(quote), lo, k)
  }

  /** One item leaves the scan where it was, inside or outside. */
  lemma ItemKeeps(data: bytes, quote: byte, lo: nat, i: nat, item: Item, inside: bool)
    requires quote != 10 && quote != 92 && lo <= i && At(data, i, Spell(item, quote))
    requires StateAt(data, quote, lo, i) == Quoting(inside, false)
    requires item.Plain? ==> item.b != quote && (!inside ==> item.b != 10)
    requires item.Doubled? ==> inside
    requires item.Escaped? && inside ==> i + 2 < |data| && data[i + 2] != quote
    ensures var j := i + |Spell(item, quote)|;
            StateAt(data, quote, lo, j) == Quoting(inside, false) && NoEnd(data, quote, lo, i, j)
  {
    AtByte(data, i, Spell(item, quote), 0);
    assert StateAt(data, quote, lo, i + 1) == Advance(data, quote, lo, i, Quoting(inside, false));
    if !item.Plain? {
      AtByte(data, i, Spell(item, quote), 1);
      assert StateAt(data, quote, lo, i + 2) == Advance(data, quote, lo, i + 1, StateAt(data, quote, lo, i + 1));
    }
  }

  lemma {:induction false} BareKeeps(data: bytes, quote: byte, lo: nat, i: nat, items: seq<Item>)
    requires quote != 10 && quote != 92 && lo <= i && At(data, i, SpellAll(items, quote)) && BareOk(items, quote)
    requires StateAt(data, quote, lo, i) == Quoting(false, false)
    ensures var j := i + |SpellAll(items, quote)|;
            StateAt(data, quote, lo, j) == Quoting(false, false) && NoEnd(data, quote, lo, i, j)
    decreases |items|
  {
    if items != [] {
      var t := Spell(items[0], quote);
      AtParts(data, i, t, SpellAll(items[1..], quote));
      ItemKeeps(data, quote, lo, i, items[0], false);
      BareKeeps(data, quote, lo, i + |t|, items[1..]);
    }
  }

  /** What comes after an item of a quoted run that may not be followed by a quote. */
  lemma NotAQuote(data: bytes, quote: byte, i: nat, items: seq<Item>)
    requires quote != 92 && items != [] && At(data, i, SpellAll(items, quote)) && QuotedOk(items, quote)
    requires !items[0].Doubled?
    ensures i < |data| && data[i] != quote
  {
    assert QuotedItemOk(items, 0, quote);
    AtParts(data, i, Spell(items[0], quote), SpellAll(items[1..], quote));
    AtByte(data, i, Spell(items[0], quote), 0);
  }

  lemma QuotedTail(items: seq<Item>, quote: byte)
    requires items != [] && QuotedOk(items, quote)
    ensures QuotedOk(items[1..], quote)
    ensures items[0].Escaped? ==> items[1..] != [] && !items[1..][0].Doubled?
  {
    var tail := items[1..];
    forall k | 0 <= k < |tail| ensures QuotedItemOk(tail, k, quote) {
      assert QuotedItemOk(items, k + 1, quote);
    }
    assert QuotedItemOk(items, 0, quote);
  }

  lemma {:induction false} QuotedKeeps(data: bytes, quote: byte, lo: nat, i: nat, items: seq<Item>)
    requires quote != 10 && quote != 92 && lo <= i && At(data, i, SpellAll(items, quote)) && QuotedOk(items, quote)
    requires StateAt(data, quote, lo, i) == Quoting(true, false)
    ensures var j := i + |SpellAll(items, quote)|;
            StateAt(data, quote, lo, j) == Quoting(true, false) && NoEnd(data, quote, lo, i, j)
    decreases |items|
  {
    if items != [] {
      var t := Spell(items[0], quote);
      AtParts(data, i, t, SpellAll(items[1..], quote));
      QuotedTail(items, quote);
      assert QuotedItemOk(items, 0, quote);
      if items[0].Escaped? {
        NotAQuote(data, quote, i + |t|, items[1..]);
      }
      ItemKeeps(data, quote, lo, i, items[0], true);
      QuotedKeeps(data, quote, lo, i + |t|, items[1..]);
    }
  }

  /** The last byte of spelled items is a backslash only if the last item is one. */
  lemma {:induction false} LastByte(items: seq<Item>, quote: byte)
    requires items != [] && quote != 92
    ensures var t := SpellAll(items, quote);
            t != [] && (items[|items| - 1] != Plain(92) ==> t[|t| - 1] != 92)
    decreases |items|
  {
    if |items| == 1 {
      assert items[1..] == [];
      assert SpellAll(items, quote) == Spell(items[0], quote);
    } else {
      LastByte(items[1..], quote);
    }
  }

  /** An opening or closing quote. */
  lemma QuoteToggles(data: bytes, quote: byte, lo: nat, i: nat, inside: bool)
    requires quote != 10 && lo <= i < |data| && data[i] == quote
    requires StateAt(data, quote, lo, i) == Quoting(inside, false)
    requires i > lo ==> data[i - 1] != 92
    requires inside ==> i + 1 < |data| && data[i + 1] != quote
    ensures StateAt(data, quote, lo, i + 1) == Quoting(!inside, false) && NoEnd(data, quote, lo, i, i + 1)
  {
  }

  lemma QuotedEnds(items: seq<Item>, quote: byte)
    requires items != [] && QuotedOk(items, quote)
    ensures items[|items| - 1] != Plain(92)
  {
    assert QuotedItemOk(items, |items| - 1, quote);
  }

  lemma SpellNothing(quote: byte)
    ensures SpellAll([], quote) == []
  {
  }

  /** A piece leaves the scan outside quotes. The byte after it must not be a quote. */
  lemma PieceKeeps(data: bytes, quote: byte, lo: nat, i: nat, p: Piece)
    requires quote != 10 && quote != 92 && lo <= i && At(data, i, SpellPiece(p, quote)) && PieceOk(p, quote)
    requires StateAt(data, quote, lo, i) == Quoting(false, false)
    requires i == lo || p.bare != []
    requires i + |SpellPiece(p, quote)| < |data| && data[i + |SpellPiece(p, quote)|] != quote
    ensures var j := i + |SpellPiece(p, quote)|;
            StateAt(data, quote, lo, j) == Quoting(false, false) && NoEnd(data, quote, lo, i, j)
  {
    hide StateAt, EndsAt, SpellAll, BareOk, QuotedOk, At;
    var a, b := SpellAll(p.bare, quote), SpellAll(p.quoted, quote);
    AtParts(data, i, a, [quote] + (b + [quote]));
    var open := i + |a|;
    AtParts(data, open, [quote], b + [quote]);
    AtParts(data, open + 1, b, [quote]);
    var close := open + 1 + |b|;
    AtByte(data, open, [quote], 0);
    AtByte(data, close, [quote], 0);
    BareKeeps(data, quote, lo, i, p.bare);
    if p.bare != [] {
      LastByte(p.bare, quote);
      AtByte(data, i, a, |a| - 1);
    } else {
      SpellNothing(quote);
    }
    QuoteToggles(data, quote, lo, open, false);
    QuotedKeeps(data, quote, lo, open + 1, p.quoted);
    if p.quoted != [] {
      LastByte(p.quoted, quote);
      QuotedEnds(p.quoted, quote);
      AtByte(data, open + 1, b, |b| - 1);
    } else {
      SpellNothing(quote);
    }
    QuoteToggles(data, quote, lo, close, true);
    assert i + |SpellPiece(p, quote)| == close + 1;
  }

  /** The first byte of bare text that is not empty, or the newline after it, is not a quote. */
  lemma BareBegins(data: bytes, quote: byte, i: nat, items: seq<Item>, after: bytes)
    requires quote != 10 && quote != 92 && BareOk(items, quote) && At(data, i, SpellAll(items, quote) + after)
    requires items == [] ==> after != [] && after[0] != quote
    ensures i < |data| && data[i] != quote
  {
    if items == [] {
      AtByte(data, i, SpellAll(items, quote) + after, 0);
    } else {
      AtParts(data, i, SpellAll(items, quote), after);
      AtParts(data, i, Spell(items[0], quote), SpellAll(items[1..], quote));
      AtByte(data, i, Spell(items[0], quote), 0);
    }
  }

  lemma {:induction false} PiecesKeep(data: bytes, quote: byte, lo: nat, i: nat, r: RecordText)
    requires quote != 10 && quote != 92 && lo <= i && At(data, i, SpellRecord(r, quote)) && RecordOk(r, quote)
    requires StateAt(data, quote, lo, i) == Quoting(false, false)
    requires i == lo || r.pieces == [] || r.pieces[0].bare != []
    ensures var j := i + |SpellRecord(r, quote)| - 1;
            && j < |data| && data[j] == 10
            && StateAt(data, quote, lo, j) == Quoting(false, false) && NoEnd(data, quote, lo, i, j)
    decreases |r.pieces|
  {
    hide StateAt, EndsAt, SpellPiece, SpellAll;
    var tail := SpellAll(r.last, quote) + [10];
    if r.pieces == [] {
      assert SpellRecord(r, quote) == tail;
      AtParts(data, i, SpellAll(r.last, quote), [10]);
      AtByte(data, i + |SpellAll(r.last, quote)|, [10], 0);
      BareKeeps(data, quote, lo, i, r.last);
    } else {
      var p, more := r.pieces[0], RecordText(r.pieces[1..], r.last);
      assert SpellRecord(r, quote) == SpellPiece(p, quote) + SpellRecord(more, quote);
      AtParts(data, i, SpellPiece(p, quote), SpellRecord(more, quote));
      assert forall k :: 0 <= k < |more.pieces| ==> more.pieces[k] == r.pieces[k + 1];
      RecordBegins(data, quote, i + |SpellPiece(p, quote)|, more);
      PieceKeeps(data, quote, lo, i, p);
      PiecesKeep(data, quote, lo, i + |SpellPiece(p, quote)|, more);
    }
  }

  /** Where no quoted run may begin, the next byte is not a quote. */
  lemma RecordBegins(data: bytes, quote: byte, i: nat, r: RecordText)
    requires quote != 10 && quote != 92 && At(data, i, SpellRecord(r, quote)) && RecordOk(r, quote)
    requires r.pieces == [] || r.pieces[0].bare != []
    ensures i < |data| && data[i] != quote
  {
    hide SpellAll;
    if r.pieces == [] {
      assert SpellRecord(r, quote) == SpellAll(r.last, quote) + [10];
      BareBegins(data, quote, i, r.last, [10]);
    } else {
      var p := r.pieces[0];
      var after := [quote] + (SpellAll(p.quoted, quote) + [quote])
                   + SpellRecord(RecordText(r.pieces[1..], r.last), quote);
      assert SpellRecord(r, quote) == SpellAll(p.bare, quote) + after;
      BareBegins(data, quote, i, p.bare, after);
    }
  }

  lemma {:induction false} EndIsThere(data: bytes, quote: byte, lo: nat, i: nat, j: nat)
    requires lo <= i <= j < |data| && NoEnd(data, quote, lo, i, j) && EndsAt(data, MultiLine(quote), lo, j)
    ensures FindEnd(data, MultiLine(quote), lo, i) == j + 1
    decreases j - i
  {
    if i < j {
      EndIsThere(data, quote, lo, i + 1, j);
    }
  }

  /**
   The reader's record is the grammar's: standing before any record text, whatever follows it,
   it stops right behind it and has not run out of data.
   */
  lemma RecordTextIsRead(data: bytes, quote: byte, lo: nat, r: RecordText)
    requires quote != 10 && quote != 92 && RecordOk(r, quote) && At(data, lo, SpellRecord(r, quote))
    ensures ReaderStep(data, MultiLine(quote), lo) == (lo + |SpellRecord(r, quote)|, false)
  {
    hide SpellRecord;
    SpellsSomething(r, quote);
    PiecesKeep(data, quote, lo, lo, r);
    var j := lo + |SpellRecord(r, quote)| - 1;
    assert EndsAt(data, MultiLine(quote), lo, j);
    EndIsThere(data, quote, lo, lo, j);
    ReaderFollowsMode(data, MultiLine(quote), lo);
  }

  /** In single-line mode a record is anything without a newline, and a newline. */
  lemma LineIsRead(data: bytes, lo: nat, line: bytes)
    requires (forall k :: 0 <= k < |line| ==> line[k] != 10) && At(data, lo, line + [10])
    ensures ReaderStep(data, SingleLine, lo) == (lo + |line| + 1, false)
  {
    var end := lo + |line|;
    assert data[end] == 10 by {
      AtByte(data, lo, line + [10], |line|);
    }
    forall k | lo <= k < end ensures data[k] != 10 {
      AtByte(data, lo, line + [10], k - lo);
    }
    FindEndSkips(data, SingleLine, lo, lo, end);
  }

  // ---------------------------------------------------------------- streams of records

  function Spelled(rs: seq<RecordText>, quote: byte): seq<bytes> {
    if rs == [] then [] else [SpellRecord(rs[0], quote)] + Spelled(rs[1..], quote)
  }

  /**
   A stream that spells record texts one after the other is read as exactly those texts, in
   order, by iterating the reader from where they begin.
   */
  lemma {:induction false} StreamIsReadBack(data: bytes, quote: byte, from: nat, rs: seq<RecordText>)
    requires quote != 10 && quote != 92 && (forall k :: 0 <= k < |rs| ==> RecordOk(rs[k], quote))
    requires from <= |data| && data[from..] == Concat(Spelled(rs, quote))
    ensures Slices(data, MultiLine(quote), RecordStarts(data, MultiLine(quote), from)) == Spelled(rs, quote)
    decreases |rs|
  {
    var m := MultiLine(quote);
    hide SpellRecord, ReaderStep, RecordOk;
    if rs == [] {
      assert from == |data|;
    } else {
      var t := SpellRecord(rs[0], quote);
      var tail := Concat(Spelled(rs[1..], quote));
      assert Spelled(rs, quote)[1..] == Spelled(rs[1..], quote);
      assert data[from..] == t + tail;
      assert data[from..from + |t|] == t by {
        assert (t + tail)[..|t|] == t;
      }
      assert At(data, from, t);
      RecordTextIsRead(data, quote, from, rs[0]);
      var next := from + |t|;
      assert data[next..] == tail by {
        assert data[from..][|t|..] == data[next..];
      }
      assert ReadEnd(data, m, from) == next;
      SpellsSomething(rs[0], quote);
      StreamIsReadBack(data, quote, next, rs[1..]);
      var starts := RecordStarts(data, m, from);
      assert starts == [from] + RecordStarts(data, m, next);
      assert Slices(data, m, starts) == [data[from..next]] + Slices(data, m, starts[1..]);
    }
  }

  lemma SpellsSomething(r: RecordText, quote: byte)
    ensures SpellRecord(r, quote) != []
  {
  }

  /** An escaped quote does not end the quoted run: the record goes on over the newline to byte 8. */
  lemma EscapedQuoteExample()
    ensures ReaderStep([34, 97, 92, 34, 10, 98, 34, 10], ModeOf(0, true), 0) == (8, false) // "a\"(newline)b"(newline)
  {
    var data: bytes := [34, 97, 92, 34, 10, 98, 34, 10];
    var items := [Plain(97), Escaped, Plain(10), Plain(98)];
    var r := RecordText([Piece([], items)], []);
    assert QuotedOk(items, 34);
    assert RecordOk(r, 34);
    assert SpellAll([Plain(98)], 34) == [98] + SpellAll([], 34);
    assert items[1..] == [Escaped, Plain(10), Plain(98)] && items[1..][1..] == [Plain(10), Plain(98)];
    assert items[1..][1..][1..] == [Plain(98)];
    assert SpellAll(items, 34) == [97] + ([92, 34] + ([10] + [98]));
    assert SpellPieces(r.pieces[1..], 34) == [];
    assert SpellRecord(r, 34) == data;
    RecordTextIsRead(data, 34, 0, r);
  }
}
