/** `_b64` and `_unb64`: base64url without padding (section 5 of RFC 4648).

    The decoder is the lenient one: it skips what is not in its alphabet and stops at
    the padding that fills a group. */
module Base64 {
  import opened Octets
  import opened Wrappers

  type Sextet = v: int | 0 <= v < 64

  function Letter(v: Sextet): char
  {
    if v < 26 then 'A' + v as char
    else if v < 52 then 'a' + (v - 26) as char
    else if v < 62 then '0' + (v - 52) as char
    else if v == 62 then '-'
    else '_'
  }

  /** What a character stands for; either alphabet's last two are read. */
  function Value(c: char): Option<Sextet>
  {
    if 'A' <= c <= 'Z' then Some(c as int - 'A' as int)
    else if 'a' <= c <= 'z' then Some(c as int - 'a' as int + 26)
    else if '0' <= c <= '9' then Some(c as int - '0' as int + 52)
    else if c == '-' || c == '+' then Some(62)
    else if c == '_' || c == '/' then Some(63)
    else None
  }

  // The four six bit groups of three bytes.

  function First(a: Byte): Sextet
  {
    a / 4
  }

  function Second(a: Byte, b: Byte): Sextet
  {
    a % 4 * 16 + b / 16
  }

  function Third(b: Byte, c: Byte): Sextet
  {
    b % 16 * 4 + c / 64
  }

  function Fourth(c: Byte): Sextet
  {
    c % 64
  }

  function Four(a: Byte, b: Byte, c: Byte): string
  {
    [Letter(First(a)), Letter(Second(a, b)), Letter(Third(b, c)), Letter(Fourth(c))]
  }

  /** Three bytes to four characters, the last group padded. */
  function Padded(raw: Bytes): string
  {
    if raw == [] then ""
    else if |raw| == 1 then [Letter(First(raw[0])), Letter(Second(raw[0], 0))] + "=="
    else if |raw| == 2 then
      [Letter(First(raw[0])), Letter(Second(raw[0], raw[1])), Letter(Third(raw[1], 0))] + "="
    else Four(raw[0], raw[1], raw[2]) + Padded(raw[3..])
  }

  /** `text.rstrip("=")`. */
  function Stripped(text: string): string
  {
    if text != "" && text[|text| - 1] == '=' then Stripped(text[..|text| - 1]) else text
  }

  function B64(raw: Bytes): string
  {
    Stripped(Padded(raw))
  }

  /** Four characters to three bytes, from the middle of a group: `quad` characters of it are
      read, `left` are the bits not yet given out and `pads` the padding just seen. */
  function Read(text: string, quad: nat, left: int, pads: nat): (bytes: Option<Bytes>)
    requires quad < 4 && 0 <= left < if quad == 1 then 64 else if quad == 2 then 16 else if quad == 3 then 4 else 1
  {
    if text == "" then
      if quad == 0 then Some([]) else None
    else if text[0] == '=' then
      if quad < 2 then Read(text[1..], quad, left, pads)
      else if quad + pads + 1 >= 4 then Some([])
      else Read(text[1..], quad, left, pads + 1)
    else
      match Value(text[0])
      case None => Read(text[1..], quad, left, pads)
      case Some(v) =>
        if quad == 0 then Read(text[1..], 1, v, 0)
        else if quad == 1 then After(left * 4 + v / 16, Read(text[1..], 2, v % 16, 0))
        else if quad == 2 then After(left * 16 + v / 4, Read(text[1..], 3, v % 4, 0))
        else After(left * 64 + v, Read(text[1..], 0, 0, 0))
  }

  function After(b: Byte, rest: Option<Bytes>): Option<Bytes>
  {
    match rest
    case None => None
    case Some(bytes) => Some([b] + bytes)
  }

  predicate IsAscii(text: string)
  {
    forall c :: c in text ==> c < 128 as char
  }

  /** The padding put back, and the lenient reading of the result; none where Python raises. */
  function Unb64(text: string): Option<Bytes>
  {
    if !IsAscii(text) then None
    else
      var missing := (4 - |text| % 4) % 4;
      Read(text + seq(missing, i => '='), 0, 0, 0)
  }

  lemma OnlyAsciiIsRead(text: string, i: nat)
    requires i < |text| && text[i] as int > 0x7F
    ensures Unb64(text).None?
  {
    assert text[i] in text;
  }

  // ── Round trip ────────────────────────────────────────────────────────────

  predicate IsPlain(text: string)
  {
    forall c :: c in text ==> c < 128 as char && c != '=' && c != '.'
  }

  const CAPITALS := "ABCDEFGHIJKLMNOPQRSTUVWXYZ"
  const SMALL := "abcdefghijklmnopqrstuvwxyz"
  const OTHERS := "0123456789-_"

  lemma LetterIs(v: Sextet)
    ensures |CAPITALS + SMALL + OTHERS| == 64 && Letter(v) == (CAPITALS + SMALL + OTHERS)[v]
  {
  }

  lemma ValueIs(c: char, v: Sextet)
    ensures Value(c) == Some(v) <==> c == Letter(v) || (v == 62 && c == '+') || (v == 63 && c == '/')
  {
  }

  /** Three bytes, as one number, are written as its four digits to the base of 64; and those are the letters of
      the URL-safe alphabet, each read back as its place, with `+` and `/` taken for the last two. */
  lemma FourAreDigits(a: Byte, b: Byte, c: Byte) returns (d0: Sextet, d1: Sextet, d2: Sextet, d3: Sextet)
    ensures ((d0 * 64 + d1) * 64 + d2) * 64 + d3 == (a * 256 + b) * 256 + c
    ensures var alphabet := CAPITALS + SMALL + OTHERS;
            |alphabet| == 64 && Four(a, b, c) == [alphabet[d0], alphabet[d1], alphabet[d2], alphabet[d3]]
    ensures forall c, v: Sextet :: Value(c) == Some(v) <==> c == Letter(v) || (v == 62 && c == '+') || (v == 63 && c == '/')
  {
    d0, d1, d2, d3 := First(a), Second(a, b), Third(b, c), Fourth(c);
    LetterIs(d0);
    LetterIs(d1);
    LetterIs(d2);
    LetterIs(d3);
    forall c, v: Sextet { ValueIs(c, v); }
  }

  lemma LetterIsRead(v: Sextet)
    ensures Value(Letter(v)) == Some(v) && Letter(v) < 128 as char && Letter(v) != '=' && Letter(v) != '.'
  {
  }

  /** What is written, before any padding. */
  function Letters(raw: Bytes): string
  {
    if raw == [] then ""
    else if |raw| == 1 then [Letter(First(raw[0])), Letter(Second(raw[0], 0))]
    else if |raw| == 2 then [Letter(First(raw[0])), Letter(Second(raw[0], raw[1])), Letter(Third(raw[1], 0))]
    else Four(raw[0], raw[1], raw[2]) + Letters(raw[3..])
  }

  function Padding(length: nat): string
  {
    if length % 3 == 1 then "==" else if length % 3 == 2 then "=" else ""
  }

  lemma Regroup(group: string, text: string, raw: Bytes)
    requires |raw| > 2 && |group| == 4
    ensures group + (text + Padding(|raw[3..]|)) == (group + text) + Padding(|raw|)
    ensures (4 - |group + text| % 4) % 4 == (4 - |text| % 4) % 4
  {
    assert (|raw| - 3) % 3 == |raw| % 3;
  }

  /** The padding stands at the end and fills the last group up to four. */
  lemma {:induction false} PaddingIsLast(raw: Bytes)
    ensures Padded(raw) == Letters(raw) + Padding(|raw|)
    ensures |Padding(|raw|)| == (4 - |Letters(raw)| % 4) % 4
  {
    if |raw| > 2 {
      PaddingIsLast(raw[3..]);
      Regroup(Four(raw[0], raw[1], raw[2]), Letters(raw[3..]), raw);
      assert |raw| % 3 == |raw[3..]| % 3;
    }
  }

  lemma {:induction false} LettersArePlain(raw: Bytes)
    ensures IsPlain(Letters(raw))
  {
    if raw != [] {
      LetterIsRead(First(raw[0]));
      LetterIsRead(Second(raw[0], if |raw| > 1 then raw[1] else 0));
      if |raw| > 1 {
        LetterIsRead(Third(raw[1], if |raw| > 2 then raw[2] else 0));
      }
      if |raw| > 2 {
        LetterIsRead(Fourth(raw[2]));
        LettersArePlain(raw[3..]);
      }
    }
  }

  lemma StrippedOf(text: string, length: nat)
    requires IsPlain(text)
    ensures Stripped(text + Padding(length)) == text
  {
    assert text != "" ==> text[|text| - 1] in text;
    assert Stripped(text) == text;
    assert text + "" == text;
    assert (text + "=")[..|text|] == text;
    assert (text + "==")[..|text| + 1] == text + "=";
  }

  /** No padding and no dot in what is written, so it can stand between dots. */
  lemma B64IsPlain(raw: Bytes)
    ensures B64(raw) == Letters(raw) && IsPlain(B64(raw))
  {
    PaddingIsLast(raw);
    LettersArePlain(raw);
    StrippedOf(Letters(raw), |raw|);
  }

  lemma ReadLetter(v: Sextet, rest: string, quad: nat, left: int, pads: nat)
    requires quad < 4 && 0 <= left < if quad == 1 then 64 else if quad == 2 then 16 else if quad == 3 then 4 else 1
    ensures quad == 0 ==> Read([Letter(v)] + rest, quad, left, pads) == Read(rest, 1, v, 0)
    ensures quad == 1 ==> Read([Letter(v)] + rest, quad, left, pads) == After(left * 4 + v / 16, Read(rest, 2, v % 16, 0))
    ensures quad == 2 ==> Read([Letter(v)] + rest, quad, left, pads) == After(left * 16 + v / 4, Read(rest, 3, v % 4, 0))
    ensures quad == 3 ==> Read([Letter(v)] + rest, quad, left, pads) == After(left * 64 + v, Read(rest, 0, 0, 0))
  {
    LetterIsRead(v);
    var text := [Letter(v)] + rest;
    assert text[0] == Letter(v) && text[1..] == rest;
  }

  lemma Regrouped(a: Byte, b: Byte, c: Byte)
    ensures First(a) * 4 + Second(a, b) / 16 == a
    ensures Second(a, b) % 16 * 16 + Third(b, c) / 4 == b
    ensures Third(b, c) % 4 * 64 + Fourth(c) == c
  {
  }

  lemma Group(a: Byte, b: Byte, c: Byte, rest: string)
    ensures Read(Four(a, b, c) + rest, 0, 0, 0)
         == After(a, After(b, After(c, Read(rest, 0, 0, 0))))
  {
    Regrouped(a, b, c);
    GroupOf(First(a), Second(a, b), Third(b, c), Fourth(c), a, b, c, rest);
  }

  lemma FrontOfGroup(v0: Sextet, v1: Sextet, rest: string)
    ensures Read([Letter(v0), Letter(v1)] + rest, 0, 0, 0) == After(v0 * 4 + v1 / 16, Read(rest, 2, v1 % 16, 0))
  {
    var s1 := [Letter(v1)] + rest;
    ReadLetter(v0, s1, 0, 0, 0);
    ReadLetter(v1, rest, 1, v0, 0);
    assert [Letter(v0), Letter(v1)] + rest == [Letter(v0)] + s1;
  }

  lemma BackOfGroup(v2: Sextet, v3: Sextet, left: int, rest: string)
    requires 0 <= left < 16
    ensures Read([Letter(v2), Letter(v3)] + rest, 2, left, 0) == After(left * 16 + v2 / 4, After(v2 % 4 * 64 + v3, Read(rest, 0, 0, 0)))
  {
    var s3 := [Letter(v3)] + rest;
    ReadLetter(v2, s3, 2, left, 0);
    ReadLetter(v3, rest, 3, v2 % 4, 0);
    assert [Letter(v2), Letter(v3)] + rest == [Letter(v2)] + s3;
  }

  lemma GroupOf(v0: Sextet, v1: Sextet, v2: Sextet, v3: Sextet, a: Byte, b: Byte, c: Byte, rest: string)
    requires v0 * 4 + v1 / 16 == a && v1 % 16 * 16 + v2 / 4 == b && v2 % 4 * 64 + v3 == c
    ensures Read([Letter(v0), Letter(v1), Letter(v2), Letter(v3)] + rest, 0, 0, 0) == After(a, After(b, After(c, Read(rest, 0, 0, 0))))
  {
    FrontOfGroup(v0, v1, [Letter(v2), Letter(v3)] + rest);
    BackOfGroup(v2, v3, v1 % 16, rest);
    assert [Letter(v0), Letter(v1), Letter(v2), Letter(v3)] + rest == [Letter(v0), Letter(v1)] + ([Letter(v2), Letter(v3)] + rest);
  }

  lemma ReadPads(left: int)
    requires 0 <= left < 4
    ensures Read("==", 2, left, 0) == Some([]) && Read("=", 3, left, 0) == Some([])
  {
    assert "=="[1..] == "=";
  }

  lemma LastOne(a: Byte)
    ensures Read([Letter(First(a)), Letter(Second(a, 0))] + "==", 0, 0, 0) == Some([a])
  {
    Regrouped(a, 0, 0);
    var v0, v1 := First(a), Second(a, 0);
    assert v1 % 16 == 0;
    ReadLetter(v0, [Letter(v1)] + "==", 0, 0, 0);
    ReadLetter(v1, "==", 1, v0, 0);
    ReadPads(0);
    assert [a] + [] == [a];
    assert [Letter(v0), Letter(v1)] + "==" == [Letter(v0)] + ([Letter(v1)] + "==");
  }

  lemma LastTwo(a: Byte, b: Byte)
    ensures Read([Letter(First(a)), Letter(Second(a, b)), Letter(Third(b, 0))] + "=", 0, 0, 0) == Some([a, b])
  {
    Regrouped(a, b, 0);
    var v0, v1, v2 := First(a), Second(a, b), Third(b, 0);
    assert v2 % 4 == 0;
    ReadLetter(v0, [Letter(v1)] + ([Letter(v2)] + "="), 0, 0, 0);
    ReadLetter(v1, [Letter(v2)] + "=", 1, v0, 0);
    ReadLetter(v2, "=", 2, v1 % 16, 0);
    ReadPads(0);
    assert [a] + ([b] + []) == [a, b];
    assert [Letter(v0), Letter(v1), Letter(v2)] + "=" == [Letter(v0)] + ([Letter(v1)] + ([Letter(v2)] + "="));
  }

  lemma {:induction false} ReadPadded(raw: Bytes)
    ensures Read(Letters(raw) + Padding(|raw|), 0, 0, 0) == Some(raw)
  {
    if |raw| == 1 {
      LastOne(raw[0]);
      assert raw == [raw[0]];
    } else if |raw| == 2 {
      LastTwo(raw[0], raw[1]);
      assert raw == [raw[0], raw[1]];
    } else if |raw| > 2 {
      var rest := raw[3..];
      ReadPadded(rest);
      assert raw == [raw[0], raw[1], raw[2]] + rest;
      ReadFourMore(raw[0], raw[1], raw[2], rest, Letters(rest), raw);
    }
  }

  lemma ReadFourMore(a: Byte, b: Byte, c: Byte, rest: Bytes, text: string, raw: Bytes)
    requires raw == [a, b, c] + rest && Read(text + Padding(|rest|), 0, 0, 0) == Some(rest)
    ensures Read((Four(a, b, c) + text) + Padding(|raw|), 0, 0, 0) == Some(raw)
  {
    assert raw[3..] == rest;
    var more := text + Padding(|rest|);
    Regroup(Four(a, b, c), text, raw);
    Group(a, b, c, more);
    AfterThree(a, b, c, rest, raw, Read(more, 0, 0, 0));
  }

  lemma AfterThree(a: Byte, b: Byte, c: Byte, rest: Bytes, raw: Bytes, read: Option<Bytes>)
    requires raw == [a, b, c] + rest && read == Some(rest)
    ensures After(a, After(b, After(c, read))) == Some(raw)
  {
    assert [a] + ([b] + ([c] + rest)) == raw;
  }

  /** What was written is read back, whatever the bytes. */
  lemma RoundTrip(raw: Bytes)
    ensures Unb64(B64(raw)) == Some(raw)
  {
    B64IsPlain(raw);
    PaddingIsLast(raw);
    ReadPadded(raw);
    var missing := (4 - |B64(raw)| % 4) % 4;
    assert seq(missing, i => '=') == Padding(|raw|);
  }
}
