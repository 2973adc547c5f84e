/** Reading a CSV's bytes: UTF-8 as Table 3-7 of the Unicode Standard (section 3.9) lays it
    out, what a decoder reports where the bytes break it, and `_decode` on top. */
module Utf8 {
  import opened Octets
  import opened Sequences

  /** Decoded text, as code points. */
  type Text = seq<int>

  const REPLACEMENT := 0xFFFD
  const REPLACEMENT_AS_UTF8: Bytes := [0xEF, 0xBF, 0xBD]
  const BOM_UTF8: Bytes := [0xEF, 0xBB, 0xBF]
  const STRAY_RUN_BUDGET := 50_000

  // ── The table ─────────────────────────────────────────────────────────────

  /** How many bytes follow a lead byte; negative for a byte that leads nothing. */
  function Following(lead: Byte): int
  {
    if lead <= 0x7F then 0
    else if 0xC2 <= lead <= 0xDF then 1
    else if 0xE0 <= lead <= 0xEF then 2
    else if 0xF0 <= lead <= 0xF4 then 3
    else -1
  }

  predicate Continues(b: Byte)
  {
    0x80 <= b <= 0xBF
  }

  /** The second byte is the one whose range depends on the first. */
  predicate Seconds(lead: Byte, b: Byte)
  {
    && Continues(b)
    && (lead == 0xE0 ==> b >= 0xA0) && (lead == 0xED ==> b <= 0x9F)
    && (lead == 0xF0 ==> b >= 0x90) && (lead == 0xF4 ==> b <= 0x8F)
  }

  /** One row of the table, filled in: the bytes of one scalar value. */
  predicate WellFormed(t: Bytes)
  {
    && 1 <= |t| <= 4 && Following(t[0]) == |t| - 1
    && (|t| > 1 ==> Seconds(t[0], t[1]))
    && (|t| > 2 ==> Continues(t[2]))
    && (|t| > 3 ==> Continues(t[3]))
  }

  // ── One step of a decoder ─────────────────────────────────────────────────

  /** What stands at the front of the bytes: a scalar value's bytes, or a run to report. */
  datatype Token = Scalar(length: nat) | Run(length: nat)

  function Next(s: Bytes): (token: Token)
    requires s != []
    ensures 1 <= token.length <= |s|
  {
    var following := Following(s[0]);
    if following == 0 then Scalar(1)
    else if following < 0 || |s| < 2 || !Seconds(s[0], s[1]) then Run(1)
    else if following == 1 then Scalar(2)
    else if |s| < 3 || !Continues(s[2]) then Run(2)
    else if following == 2 then Scalar(3)
    else if |s| < 4 || !Continues(s[3]) then Run(3)
    else Scalar(4)
  }

  /** The start of some scalar value's bytes, not yet all of them. */
  ghost predicate Begins(t: Bytes)
  {
    exists w :: WellFormed(w) && t < w
  }

  /** A scalar is reported exactly where the table has a row for the bytes. */
  lemma ScalarIsWellFormed(s: Bytes)
    requires s != []
    ensures Next(s).Scalar? ==> WellFormed(s[..Next(s).length])
    ensures forall n :: 1 <= n <= |s| && WellFormed(s[..n]) ==> Next(s) == Scalar(n)
  {
  }

  /** Bytes that could still have become a scalar value, one byte longer. */
  lemma BeginsIsStep(t: Bytes, n: nat)
    requires n <= |t| && (n < |t| || Begins(t))
    ensures Begins(t) ==> |t| < 4 && (t == [] || Following(t[0]) >= |t|) && (|t| > 1 ==> Seconds(t[0], t[1])) && (|t| > 2 ==> Continues(t[2]))
  {
    if Begins(t) {
      var w :| WellFormed(w) && t < w;
      assert forall i :: 0 <= i < |t| ==> t[i] == w[i];
    }
  }

  /** The run reported is the maximal subpart: one byte, or the longest start of some scalar
      value's bytes that stands there; a longer stretch starts none. */
  lemma RunIsMaximal(s: Bytes)
    requires s != [] && Next(s).Run?
    ensures var n := Next(s).length;
            && (n == 1 || Begins(s[..n]))
            && forall m :: n < m <= |s| ==> !Begins(s[..m]) && !WellFormed(s[..m])
  {
    var n := Next(s).length;
    if n == 2 {
      var w := s[..2] + (if Following(s[0]) == 2 then [0x80] else [0x80, 0x80]);
      assert WellFormed(w) && s[..2] < w;
    } else if n == 3 {
      var w := s[..3] + [0x80];
      assert WellFormed(w) && s[..3] < w;
    }
    forall m | n < m <= |s| ensures !Begins(s[..m]) && !WellFormed(s[..m]) {
      if Begins(s[..m]) { BeginsIsStep(s[..m], m); }
      ScalarIsWellFormed(s);
    }
  }

  // ── The whole of the bytes ────────────────────────────────────────────────

  /** The bytes cut where a decoder cuts them. */
  function Pieces(s: Bytes): (pieces: seq<Bytes>)
    decreases |s|
  {
    if s == [] then [] else [s[..Next(s).length]] + Pieces(s[Next(s).length..])
  }

  function Concat(pieces: seq<Bytes>): Bytes
  {
    if pieces == [] then [] else pieces[0] + Concat(pieces[1..])
  }

  /** Decoding with a handler for the runs, as `bytes.decode` calls one: each run once, then on from its end. */
  function DecodeWith(s: Bytes, handler: Bytes -> Text): Text
    decreases |s|
  {
    if s == [] then []
    else
      var piece, rest := s[..Next(s).length], s[Next(s).length..];
      (if Next(s).Scalar? then [CodePoint(piece)] else handler(piece)) + DecodeWith(rest, handler)
  }

  /** The runs the handler is called on, in order. */
  function RunsOf(s: Bytes): seq<Bytes>
    decreases |s|
  {
    if s == [] then []
    else
      var piece, rest := s[..Next(s).length], s[Next(s).length..];
      (if Next(s).Run? then [piece] else []) + RunsOf(rest)
  }

  lemma ConcatOfOneMore(piece: Bytes, pieces: seq<Bytes>)
    ensures Concat([piece] + pieces) == piece + Concat(pieces)
  {
    assert ([piece] + pieces)[1..] == pieces;
  }

  /** No byte is lost and none is read twice: the pieces are the bytes, and each is one scalar
      value's or one run handed to the handler. */
  lemma {:induction false} PiecesPartition(s: Bytes)
    ensures Concat(Pieces(s)) == s
    ensures forall p :: p in Pieces(s) ==> p != [] && (WellFormed(p) || p in RunsOf(s))
    decreases |s|
  {
    if s != [] {
      var piece, rest := s[..Next(s).length], s[Next(s).length..];
      PiecesPartition(rest);
      ScalarIsWellFormed(s);
      ConcatOfOneMore(piece, Pieces(rest));
      assert piece + rest == s;
      forall p | p in Pieces(s) ensures p != [] && (WellFormed(p) || p in RunsOf(s)) {
        assert p == piece || p in Pieces(rest);
      }
    }
  }

  // ── Counting the runs ─────────────────────────────────────────────────────

  function Replacer(): Bytes -> Text
  {
    run => [REPLACEMENT]
  }

  function CountIn(text: Text, c: int): nat
  {
    if text == [] then 0 else (if text[0] == c then 1 else 0) + CountIn(text[1..], c)
  }

  /** `bytes.count` of the replacement character's bytes: from the left, without overlap. */
  function Occurrences(s: Bytes): nat
    decreases |s|
  {
    if |s| < 3 then 0
    else if s[..3] == REPLACEMENT_AS_UTF8 then 1 + Occurrences(s[3..])
    else Occurrences(s[1..])
  }

  lemma {:induction false} CountOfConcat(a: Text, b: Text, c: int)
    ensures CountIn(a + b, c) == CountIn(a, c) + CountIn(b, c)
  {
    if a == [] {
      assert a + b == b;
    } else {
      assert (a + b)[1..] == a[1..] + b;
      CountOfConcat(a[1..], b, c);
    }
  }

  /** No occurrence starts inside a piece: past its first byte every byte continues, and EF does not. */
  lemma {:induction false} OccurrencesSkipContinuing(s: Bytes, n: nat)
    requires n <= |s| && forall i :: 0 <= i < n ==> Continues(s[i])
    ensures Occurrences(s) == Occurrences(s[n..])
  {
    if n > 0 {
      OccurrencesSkipContinuing(s[1..], n - 1);
      assert s[1..][n - 1..] == s[n..];
      if |s| >= 3 {
        assert s[..3][0] == s[0];
      }
    } else {
      assert s[0..] == s;
    }
  }

  lemma OccurrenceIsAPiece(s: Bytes)
    requires |s| >= 3 && s[..3] == REPLACEMENT_AS_UTF8
    ensures Next(s).length == 3 && Occurrences(s) == 1 + Occurrences(s[3..])
  {
    assert s[0] == s[..3][0] && s[1] == s[..3][1] && s[2] == s[..3][2];
  }

  lemma OtherPieceIsSkipped(s: Bytes, n: nat)
    requires s != [] && n == Next(s).length && !(|s| >= 3 && s[..3] == REPLACEMENT_AS_UTF8)
    ensures Occurrences(s) == Occurrences(s[n..])
  {
    assert |s| < 3 ==> Occurrences(s) == 0 == Occurrences(s[1..]);
    forall i | 0 <= i < n - 1 ensures Continues(s[1..][i]) {
      assert s[1..][i] == s[i + 1];
    }
    OccurrencesSkipContinuing(s[1..], n - 1);
    assert s[1..][n - 1..] == s[n..];
  }

  lemma OccurrencesByPiece(s: Bytes)
    requires s != []
    ensures var piece, rest := s[..Next(s).length], s[Next(s).length..];
            Occurrences(s) == (if piece == REPLACEMENT_AS_UTF8 then 1 else 0) + Occurrences(rest)
  {
    if |s| >= 3 && s[..3] == REPLACEMENT_AS_UTF8 {
      OccurrenceIsAPiece(s);
    } else {
      OtherPieceIsSkipped(s, Next(s).length);
      assert s[..Next(s).length] != REPLACEMENT_AS_UTF8;
    }
  }

  /** The count taken by subtraction is exact, for every byte string: the replacement characters
      of the replacing decode, less the ones the bytes already spelled, are the runs. */
  lemma {:induction false} RunCountIsExact(s: Bytes)
    ensures CountIn(DecodeWith(s, Replacer()), REPLACEMENT) == |RunsOf(s)| + Occurrences(s)
    decreases |s|
  {
    if s != [] {
      var piece, rest := s[..Next(s).length], s[Next(s).length..];
      RunCountIsExact(rest);
      OccurrencesByPiece(s);
      var first: Text := if Next(s).Scalar? then [CodePoint(piece)] else [REPLACEMENT];
      CountOfConcat(first, DecodeWith(rest, Replacer()), REPLACEMENT);
      assert first[1..] == [];
      ScalarIsWellFormed(s);
      if Next(s).Scalar? {
        SpellsReplacement(piece);
      } else {
        assert WellFormed(REPLACEMENT_AS_UTF8);
      }
    }
  }

  // ── Scalar values ─────────────────────────────────────────────────────────

  predicate IsScalarValue(c: int)
  {
    0 <= c <= 0x10FFFF && !(0xD800 <= c <= 0xDFFF)
  }

  /** The six bits a continuation byte adds. */
  function Shifted(high: int, b: Byte): int
  {
    high * 64 + (b - 0x80)
  }

  /** The value the bytes spell; of no meaning off the table. */
  function CodePoint(t: Bytes): int
  {
    if t == [] then 0
    else
      var lead: int := t[0];
      if |t| == 1 then lead
      else if |t| == 2 then Shifted(lead - 0xC0, t[1])
      else if |t| == 3 then Shifted(Shifted(lead - 0xE0, t[1]), t[2])
      else if |t| == 4 then Shifted(Shifted(Shifted(lead - 0xF0, t[1]), t[2]), t[3])
      else 0
  }

  /** The continuation byte that carries a value's last six bits. */
  function LastSix(c: int): (b: Byte)
    requires c >= 0
    ensures Continues(b) && Shifted(c / 64, b) == c
  {
    0x80 + c % 64
  }

  function Encode(c: int): Bytes
    requires IsScalarValue(c)
  {
    var q := c / 64;
    var p := q / 64;
    if c < 0x80 then [c]
    else if c < 0x800 then [0xC0 + q, LastSix(c)]
    else if c < 0x10000 then [0xE0 + p, LastSix(q), LastSix(c)]
    else [0xF0 + p / 64, LastSix(p), LastSix(q), LastSix(c)]
  }

  /** Every scalar value's bytes are a row of the table and spell it. */
  lemma DecodeEncode(c: int)
    requires IsScalarValue(c)
    ensures WellFormed(Encode(c)) && CodePoint(Encode(c)) == c
  {
    var q := c / 64;
    var p := q / 64;
    if 0x800 <= c < 0x10000 {
      assert 0x20 <= q < 0x400;
      assert Shifted(p, LastSix(q)) == q;
    } else if c >= 0x10000 {
      assert 0x400 <= q < 0x4400 && 0x10 <= p < 0x110;
      assert Shifted(p / 64, LastSix(p)) == p && Shifted(p, LastSix(q)) == q;
    }
  }

  lemma ShiftBack(high: int, b: Byte)
    requires high >= 0 && Continues(b)
    ensures Shifted(high, b) / 64 == high && LastSix(Shifted(high, b)) == b
    ensures high * 64 <= Shifted(high, b) < high * 64 + 64
  {
  }

  lemma EncodeDecodeThree(t: Bytes, lead: int)
    requires WellFormed(t) && |t| == 3 && lead == t[0]
    ensures IsScalarValue(CodePoint(t)) && Encode(CodePoint(t)) == t
  {
    var p := lead - 0xE0;
    var q := Shifted(p, t[1]);
    var c := Shifted(q, t[2]);
    ShiftBack(p, t[1]);
    ShiftBack(q, t[2]);
    assert CodePoint(t) == c;
    assert 0x20 <= q < 0x400 && !(0x360 <= q <= 0x37F);
    assert Encode(c) == [0xE0 + p, LastSix(q), LastSix(c)];
  }

  lemma FourBytesOf(c: int, q: int, p: int, o: int)
    requires 0x10000 <= c <= 0x10FFFF && c / 64 == q && q / 64 == p && p / 64 == o
    ensures p >= 0 && q >= 0 && 0 <= o <= 4
    ensures Encode(c) == [0xF0 + o, LastSix(p), LastSix(q), LastSix(c)]
  {
  }

  lemma EncodeDecodeFour(t: Bytes, lead: int)
    requires WellFormed(t) && |t| == 4 && lead == t[0]
    ensures IsScalarValue(CodePoint(t)) && Encode(CodePoint(t)) == t
  {
    var o := lead - 0xF0;
    var p := Shifted(o, t[1]);
    ShiftBack(o, t[1]);
    assert 0x10 <= p < 0x110;
    var q := Shifted(p, t[2]);
    ShiftBack(p, t[2]);
    var c := Shifted(q, t[3]);
    ShiftBack(q, t[3]);
    assert CodePoint(t) == c;
    FourBytesOf(c, q, p, o);
  }

  /** Every row of the table spells a scalar value, whose bytes it is. */
  lemma EncodeDecode(t: Bytes)
    requires WellFormed(t)
    ensures IsScalarValue(CodePoint(t)) && Encode(CodePoint(t)) == t
  {
    var lead: int := t[0];
    if |t| == 2 {
      ShiftBack(lead - 0xC0, t[1]);
      assert Encode(CodePoint(t)) == [lead, t[1]];
    } else if |t| == 3 {
      EncodeDecodeThree(t, lead);
    } else if |t| == 4 {
      EncodeDecodeFour(t, lead);
    }
  }

  /** Only its own bytes spell the replacement character. */
  lemma SpellsReplacement(t: Bytes)
    requires WellFormed(t)
    ensures CodePoint(t) == REPLACEMENT <==> t == REPLACEMENT_AS_UTF8
  {
    EncodeDecode(t);
    ReplacementIsEncoded();
  }

  lemma ReplacementIsEncoded()
    ensures IsScalarValue(REPLACEMENT) && Encode(REPLACEMENT) == REPLACEMENT_AS_UTF8
    ensures CodePoint(REPLACEMENT_AS_UTF8) == REPLACEMENT
  {
    assert REPLACEMENT / 64 == 0x3FF && REPLACEMENT / 64 / 64 == 0xF;
    assert LastSix(0x3FF) == 0xBF && LastSix(REPLACEMENT) == 0xBD;
  }

  // ── Valid bytes ───────────────────────────────────────────────────────────

  predicate IsText(text: Text)
  {
    forall i :: 0 <= i < |text| ==> IsScalarValue(text[i])
  }

  function EncodeAll(text: Text): Bytes
    requires IsText(text)
  {
    if text == [] then [] else Encode(text[0]) + EncodeAll(text[1..])
  }

  /** What follows one scalar value's bytes does not change how they are read. */
  lemma FrontScalar(t: Bytes, rest: Bytes)
    requires WellFormed(t)
    ensures Next(t + rest) == Scalar(|t|)
    ensures (t + rest)[..|t|] == t && (t + rest)[|t|..] == rest
  {
    var s := t + rest;
    assert s[..|t|] == t;
    ScalarIsWellFormed(s);
  }

  lemma DecodeAfterScalar(t: Bytes, rest: Bytes, handler: Bytes -> Text)
    requires WellFormed(t)
    ensures DecodeWith(t + rest, handler) == [CodePoint(t)] + DecodeWith(rest, handler)
    ensures RunsOf(t + rest) == RunsOf(rest)
  {
    FrontScalar(t, rest);
    assert [] + RunsOf(rest) == RunsOf(rest);
  }

  /** Encoded text decodes to itself, and what follows it is decoded as if it stood alone. */
  lemma {:induction false} DecodeAfterText(text: Text, rest: Bytes, handler: Bytes -> Text)
    requires IsText(text)
    ensures DecodeWith(EncodeAll(text) + rest, handler) == text + DecodeWith(rest, handler)
    ensures RunsOf(EncodeAll(text) + rest) == RunsOf(rest)
  {
    if text == [] {
      assert EncodeAll(text) + rest == rest;
      assert text + DecodeWith(rest, handler) == DecodeWith(rest, handler);
    } else {
      var t, s := Encode(text[0]), EncodeAll(text[1..]);
      DecodeAfterText(text[1..], rest, handler);
      DecodeEncode(text[0]);
      assert EncodeAll(text) == t + s && text == [text[0]] + text[1..];
      AfterOneMore(text[0], t, text[1..], s, rest, handler);
    }
  }

  lemma AfterOneMore(c: int, t: Bytes, text: Text, s: Bytes, rest: Bytes, handler: Bytes -> Text)
    requires WellFormed(t) && CodePoint(t) == c
    requires DecodeWith(s + rest, handler) == text + DecodeWith(rest, handler) && RunsOf(s + rest) == RunsOf(rest)
    ensures DecodeWith((t + s) + rest, handler) == ([c] + text) + DecodeWith(rest, handler)
    ensures RunsOf((t + s) + rest) == RunsOf(rest)
  {
    Assoc(t, s, rest);
    DecodeAfterScalar(t, s + rest, handler);
    Assoc([c], text, DecodeWith(rest, handler));
  }

  /** Text with nothing after it. */
  lemma DecodeText(text: Text, handler: Bytes -> Text)
    requires IsText(text)
    ensures DecodeWith(EncodeAll(text), handler) == text && RunsOf(EncodeAll(text)) == []
  {
    DecodeAfterText(text, [], handler);
    assert EncodeAll(text) + [] == EncodeAll(text) && text + [] == text;
  }

  lemma FirstIsScalar(s: Bytes)
    requires s != [] && RunsOf(s) == []
    ensures var piece, rest := s[..Next(s).length], s[Next(s).length..];
            Next(s).Scalar? && RunsOf(rest) == [] && WellFormed(piece) && piece + rest == s
  {
    ScalarIsWellFormed(s);
  }

  /** Bytes without a run are the bytes of the text they decode to. */
  lemma {:induction false} ValidIsEncoded(s: Bytes, handler: Bytes -> Text)
    requires RunsOf(s) == []
    ensures IsText(DecodeWith(s, handler)) && EncodeAll(DecodeWith(s, handler)) == s
    decreases |s|
  {
    if s != [] {
      var piece, rest := s[..Next(s).length], s[Next(s).length..];
      FirstIsScalar(s);
      ValidIsEncoded(rest, handler);
      EncodeDecode(piece);
      EncodeOneMore(piece, DecodeWith(rest, handler), rest);
    }
  }

  lemma EncodeOneMore(t: Bytes, text: Text, rest: Bytes)
    requires IsScalarValue(CodePoint(t)) && Encode(CodePoint(t)) == t && IsText(text) && EncodeAll(text) == rest
    ensures IsText([CodePoint(t)] + text) && EncodeAll([CodePoint(t)] + text) == t + rest
  {
    var longer := [CodePoint(t)] + text;
    assert longer[0] == CodePoint(t) && longer[1..] == text;
  }

  /** Strict decoding succeeds exactly on the bytes of some text, and answers that text. */
  lemma ValidIffEncoded(s: Bytes, handler: Bytes -> Text)
    ensures RunsOf(s) == [] <==> exists text :: IsText(text) && EncodeAll(text) == s
    ensures forall text :: IsText(text) && EncodeAll(text) == s ==> DecodeWith(s, handler) == text
  {
    if RunsOf(s) == [] {
      ValidIsEncoded(s, handler);
    }
    forall text | IsText(text) && EncodeAll(text) == s ensures DecodeWith(s, handler) == text && RunsOf(s) == [] {
      DecodeText(text, handler);
    }
  }

  // ── `_decode` ─────────────────────────────────────────────────────────────

  /** A run read byte by byte through the single byte code page. */
  function Paged(page: Byte -> int, run: Bytes): (text: Text)
    ensures |text| == |run|
  {
    seq(|run|, i requires 0 <= i < |run| => page(run[i]))
  }

  function StrayBytes(page: Byte -> int): Bytes -> Text
  {
    run => Paged(page, run)
  }

  function WithoutMark(content: Bytes): Bytes
  {
    if BOM_UTF8 <= content then content[3..] else content
  }

  /** Text from bytes: UTF-8 but for its stray runs where there are few of them, and all of it through
      the code page where there are many. */
  function DecodeFile(page: Byte -> int, content: Bytes): Text
  {
    var body := WithoutMark(content);
    if RunsOf(body) == [] then DecodeWith(body, Replacer())
    else
      var runs := CountIn(DecodeWith(body, Replacer()), REPLACEMENT) - Occurrences(body);
      if runs > STRAY_RUN_BUDGET then Paged(page, body) else DecodeWith(body, StrayBytes(page))
  }

  /** Some character is spelled at the front of these bytes. */
  ghost predicate Spells(s: Bytes, c: int)
  {
    IsScalarValue(c) && Encode(c) <= s
  }

  ghost predicate SpellsSomething(s: Bytes)
  {
    exists c :: Spells(s, c)
  }

  /** Left to right: the character spelled where one is, and otherwise one byte's own. */
  ghost function Reading(page: Byte -> int, s: Bytes): Text
    decreases |s|
  {
    if s == [] then []
    else if c :| Spells(s, c) then EncodeIsNotEmpty(c); [c] + Reading(page, s[|Encode(c)|..])
    else [page(s[0])] + Reading(page, s[1..])
  }

  lemma EncodeIsNotEmpty(c: int)
    requires IsScalarValue(c)
    ensures Encode(c) != []
  {
  }

  lemma SpelledIsNext(s: Bytes, c: int)
    requires Spells(s, c)
    ensures s != [] && Next(s) == Scalar(|Encode(c)|) && s[..Next(s).length] == Encode(c) && CodePoint(Encode(c)) == c
  {
    DecodeEncode(c);
    FrontScalar(Encode(c), s[|Encode(c)|..]);
    assert s == Encode(c) + s[|Encode(c)|..];
  }

  /** A run is read where nothing is spelled, and only there. */
  lemma SpellsIffScalar(s: Bytes)
    requires s != []
    ensures SpellsSomething(s) <==> Next(s).Scalar?
  {
    if c :| Spells(s, c) {
      SpelledIsNext(s, c);
    }
    if Next(s).Scalar? {
      ScalarIsWellFormed(s);
      EncodeDecode(s[..Next(s).length]);
      assert Spells(s, CodePoint(s[..Next(s).length]));
    }
  }

  /** A byte that continues a character spells none by itself. */
  lemma ContinuingIsARun(page: Byte -> int, s: Bytes)
    requires s != [] && Continues(s[0])
    ensures Next(s) == Run(1) && DecodeWith(s, StrayBytes(page)) == [page(s[0])] + DecodeWith(s[1..], StrayBytes(page))
  {
    assert StrayBytes(page)(s[..1]) == [page(s[0])];
  }

  lemma RunContinues(s: Bytes)
    requires s != [] && Next(s).Run?
    ensures forall i :: 0 < i < Next(s).length ==> Continues(s[i])
  {
  }

  /** So a run is read byte by byte, whatever its length. */
  lemma RunIsReadByByte(page: Byte -> int, s: Bytes)
    requires s != [] && Next(s).Run?
    ensures DecodeWith(s, StrayBytes(page)) == [page(s[0])] + DecodeWith(s[1..], StrayBytes(page))
  {
    var handler, n := StrayBytes(page), Next(s).length;
    RunContinues(s);
    assert handler(s[..n]) == Paged(page, s[..n]);
    if n == 1 {
      assert handler(s[..1]) == [page(s[0])];
    } else if n == 2 {
      ContinuingIsARun(page, s[1..]);
      assert s[1..][1..] == s[2..];
      assert handler(s[..2]) == [page(s[0])] + [page(s[1])];
      Assoc([page(s[0])], [page(s[1])], DecodeWith(s[2..], handler));
    } else {
      ContinuingIsARun(page, s[1..]);
      ContinuingIsARun(page, s[2..]);
      assert s[1..][1..] == s[2..] && s[2..][1..] == s[3..];
      assert handler(s[..3]) == [page(s[0])] + ([page(s[1])] + [page(s[2])]);
      Assoc([page(s[0])], [page(s[1])] + [page(s[2])], DecodeWith(s[3..], handler));
      Assoc([page(s[1])], [page(s[2])], DecodeWith(s[3..], handler));
    }
  }

  lemma {:induction false} DecodeIsReading(page: Byte -> int, s: Bytes)
    ensures DecodeWith(s, StrayBytes(page)) == Reading(page, s)
    decreases |s|
  {
    if s != [] {
      SpellsIffScalar(s);
      if SpellsSomething(s) {
        var c :| Spells(s, c) && Reading(page, s) == [c] + Reading(page, s[|Encode(c)|..]);
        SpelledIsNext(s, c);
        EncodeIsNotEmpty(c);
        DecodeIsReading(page, s[|Encode(c)|..]);
      } else {
        RunIsReadByByte(page, s);
        DecodeIsReading(page, s[1..]);
      }
    }
  }

  /** How a file is read is decided by its runs alone. With no more of them than the budget it is read left
      to right, each character where it is spelled and any other byte as its own of the code page; with
      more, every byte is its own of the code page, in order. A file that has been through the
      importer before, and is full of replacement characters, is not counted against for them. */
  lemma DecodeIsBudgeted(page: Byte -> int, content: Bytes)
    ensures var body, text := WithoutMark(content), DecodeFile(page, content);
            if |RunsOf(body)| <= 50_000 then text == Reading(page, body)
            else |text| == |body| && forall i :: 0 <= i < |body| ==> text[i] == page(body[i])
  {
    var body := WithoutMark(content);
    RunCountIsExact(body);
    DecodeIsReading(page, body);
    if RunsOf(body) == [] {
      ValidIsEncoded(body, Replacer());
      DecodeText(DecodeWith(body, Replacer()), StrayBytes(page));
    }
  }

  /** Only text that starts with the mark has the mark in front. */
  lemma MarkIsFirst(text: Text)
    requires IsText(text) && BOM_UTF8 <= EncodeAll(text)
    ensures text != [] && text[0] == 0xFEFF
  {
    DecodeText(text, Replacer());
    MarkIsDecoded(EncodeAll(text), Replacer());
  }

  /** A file written as UTF-8, with or without a mark in front, comes back as it was. */
  lemma EncodedFileIsRead(page: Byte -> int, text: Text)
    requires IsText(text) && (text != [] ==> text[0] != 0xFEFF)
    ensures DecodeFile(page, EncodeAll(text)) == text && DecodeFile(page, BOM_UTF8 + EncodeAll(text)) == text
  {
    var s := EncodeAll(text);
    DecodeText(text, Replacer());
    assert (BOM_UTF8 + s)[3..] == s && WithoutMark(BOM_UTF8 + s) == s;
    assert !(BOM_UTF8 <= s) by {
      if BOM_UTF8 <= s { MarkIsFirst(text); }
    }
  }

  /** Nothing is spelled from any of these bytes on. */
  ghost predicate AreStray(stray: Bytes, after: Bytes)
  {
    forall i :: 0 <= i < |stray| ==> !SpellsSomething(stray[i..] + after)
  }

  lemma {:induction false} StrayAreRead(page: Byte -> int, stray: Bytes, after: Text)
    requires IsText(after) && AreStray(stray, EncodeAll(after))
    ensures DecodeWith(stray + EncodeAll(after), StrayBytes(page)) == seq(|stray|, i requires 0 <= i < |stray| => page(stray[i])) + after
    ensures |RunsOf(stray + EncodeAll(after))| <= |stray|
  {
    var rest := EncodeAll(after);
    if stray == [] {
      DecodeText(after, StrayBytes(page));
      assert stray + rest == rest;
    } else {
      var s, tail := stray + rest, stray[1..];
      assert stray[0..] + rest == s && s[1..] == tail + rest;
      forall i | 0 <= i < |tail| ensures !SpellsSomething(tail[i..] + rest) {
        assert tail[i..] == stray[i + 1..];
      }
      SpellsIffScalar(s);
      RunIsReadByByte(page, s);
      RunsOneMore(s);
      StrayAreRead(page, tail, after);
      PageInFront(page, stray, after);
    }
  }

  lemma PageInFront(page: Byte -> int, stray: Bytes, after: Text)
    requires stray != []
    ensures seq(|stray|, i requires 0 <= i < |stray| => page(stray[i])) + after
         == [page(stray[0])] + (seq(|stray[1..]|, i requires 0 <= i < |stray[1..]| => page(stray[1..][i])) + after)
  {
  }

  /** One byte less is one run less at most. */
  lemma RunsOneMore(s: Bytes)
    requires s != [] && Next(s).Run?
    ensures |RunsOf(s)| <= 1 + |RunsOf(s[1..])|
  {
    var n := Next(s).length;
    RunContinues(s);
    if n == 2 {
      assert Next(s[1..]) == Run(1) && s[1..][1..] == s[2..];
    } else if n == 3 {
      assert Next(s[1..]) == Run(1) && s[1..][1..] == s[2..];
      assert Next(s[2..]) == Run(1) && s[2..][1..] == s[3..];
    }
  }

  /** Stray bytes spoil nothing around them: in the middle of valid text each becomes its own code page
      character, in order, and the text around them is read as it was written. */
  lemma StrayBytesCostThemselves(page: Byte -> int, before: Text, stray: Bytes, after: Text)
    requires IsText(before) && IsText(after) && (before != [] ==> before[0] != 0xFEFF)
    requires 0 < |stray| <= 50_000 && AreStray(stray, EncodeAll(after))
    ensures DecodeFile(page, EncodeAll(before) + (stray + EncodeAll(after)))
         == before + (seq(|stray|, i requires 0 <= i < |stray| => page(stray[i])) + after)
  {
    var rest := stray + EncodeAll(after);
    var s := EncodeAll(before) + rest;
    StrayAreRead(page, stray, after);
    DecodeAfterText(before, rest, StrayBytes(page));
    assert stray[0..] + EncodeAll(after) == rest;
    SpellsIffScalar(rest);
    assert !(BOM_UTF8 <= s) by {
      if BOM_UTF8 <= s { MarkBeforeStray(before, rest, s); }
    }
    DecodeIsBudgeted(page, s);
    DecodeIsReading(page, s);
  }

  /** One byte past ASCII that starts no character and stands before a character is such. */
  lemma LoneByteIsStray(stray: Byte, after: Text)
    requires IsText(after) && stray >= 0x80
    ensures AreStray([stray], EncodeAll(after))
  {
    var tail := EncodeAll(after);
    var rest := [stray] + tail;
    if after != [] {
      DecodeEncode(after[0]);
      assert tail[0] == Encode(after[0])[0];
    }
    assert [stray][0..] + tail == rest && Next(rest) == Run(1);
    SpellsIffScalar(rest);
  }

  /** So one stray byte is one run and one character. */
  lemma StrayByteCostsItself(page: Byte -> int, before: Text, stray: Byte, after: Text)
    requires IsText(before) && IsText(after) && stray >= 0x80
    requires before != [] ==> before[0] != 0xFEFF
    ensures DecodeFile(page, EncodeAll(before) + ([stray] + EncodeAll(after))) == before + ([page(stray)] + after)
    ensures RunsOf(EncodeAll(before) + ([stray] + EncodeAll(after))) == [[stray]]
  {
    var rest := [stray] + EncodeAll(after);
    LoneByteIsStray(stray, after);
    StrayBytesCostThemselves(page, before, [stray], after);
    assert seq(|[stray]|, i requires 0 <= i < |[stray]| => page([stray][i])) == [page(stray)];
    DecodeAfterText(before, rest, StrayBytes(page));
    LoneRun(stray, after);
  }

  lemma LoneRun(stray: Byte, after: Text)
    requires IsText(after) && stray >= 0x80
    ensures RunsOf([stray] + EncodeAll(after)) == [[stray]]
  {
    var tail := EncodeAll(after);
    var rest := [stray] + tail;
    DecodeText(after, Replacer());
    if after != [] {
      DecodeEncode(after[0]);
      assert tail[0] == Encode(after[0])[0];
    }
    assert Next(rest) == Run(1) && rest[..1] == [stray] && rest[1..] == tail;
  }

  lemma MarkBeforeStray(before: Text, rest: Bytes, s: Bytes)
    requires IsText(before) && s == EncodeAll(before) + rest
    requires rest != [] && Next(rest).Run?
    requires BOM_UTF8 <= s
    ensures before != [] && before[0] == 0xFEFF
  {
    var handler := Replacer();
    DecodeAfterText(before, rest, handler);
    var text := DecodeWith(rest, handler);
    assert before == [] ==> s == rest;
    MarkIsDecoded(s, handler);
  }

  lemma MarkIsDecoded(s: Bytes, handler: Bytes -> Text)
    requires BOM_UTF8 <= s
    ensures Next(s) == Scalar(3) && DecodeWith(s, handler) != [] && DecodeWith(s, handler)[0] == 0xFEFF
  {
    assert s == BOM_UTF8 + s[3..];
    FrontScalar(BOM_UTF8, s[3..]);
    DecodeAfterScalar(BOM_UTF8, s[3..], handler);
  }
}
