/**
 * The standard base64 encoding of section 4 of RFC 4648 (alphabet A-Z, a-z, 0-9, '+', '/',
 * '=' padding), with the decoding rules of Go's `base64.StdEncoding`:
 *  - carriage returns and line feeds anywhere in the input are skipped;
 *  - padding is mandatory, so the remaining text is a whole number of four-character quanta;
 *  - only the final quantum may carry padding, as "xx==" or "xxx=";
 *  - the encoding is not strict: unused low bits of the last quantum are ignored.
 */
module Base64 {
  import opened Results

  type byte = x: int | 0 <= x < 256

  /** Go reports a `CorruptInputError`; its byte offset is not modelled. */
  datatype DecodeError = CorruptInput

  predicate IsAlphabet(c: char) {
    'A' <= c <= 'Z' || 'a' <= c <= 'z' || '0' <= c <= '9' || c == '+' || c == '/'
  }

  /** The 6-bit value a character of the alphabet stands for. */
  function ValueOf(c: char): (v: int)
    requires IsAlphabet(c)
    ensures 0 <= v < 64
  {
    if 'A' <= c <= 'Z' then c as int - 'A' as int
    else if 'a' <= c <= 'z' then c as int - 'a' as int + 26
    else if '0' <= c <= '9' then c as int - '0' as int + 52
    else if c == '+' then 62
    else 63
  }

  /** The character of the alphabet that stands for a 6-bit value. */
  function CharOf(v: int): (c: char)
    requires 0 <= v < 64
    ensures IsAlphabet(c) && ValueOf(c) == v
  {
    if v < 26 then ('A' as int + v) as char
    else if v < 52 then ('a' as int + (v - 26)) as char
    else if v < 62 then ('0' as int + (v - 52)) as char
    else if v == 62 then '+'
    else '/'
  }

  lemma CharOfValueOf(c: char)
    requires IsAlphabet(c)
    ensures CharOf(ValueOf(c)) == c
  {
  }

  /** Three bytes become four characters, six bits each, most significant first. */
  function EncodeBlock(a: byte, b: byte, c: byte): (s: string)
  {
    [CharOf(a / 4), CharOf(a % 4 * 16 + b / 16), CharOf(b % 16 * 4 + c / 64), CharOf(c % 64)]
  }

  /** `base64.StdEncoding.EncodeToString`. */
  function Encode(b: seq<byte>): (s: string)
    ensures |s| % 4 == 0 && (|s| == 0 <==> |b| == 0)
    ensures forall i :: 0 <= i < |s| ==> IsAlphabet(s[i]) || s[i] == '='
    decreases |b|
  {
    if |b| == 0 then ""
    else if |b| == 1 then [CharOf(b[0] / 4), CharOf(b[0] % 4 * 16), '=', '=']
    else if |b| == 2 then [CharOf(b[0] / 4), CharOf(b[0] % 4 * 16 + b[1] / 16), CharOf(b[1] % 16 * 4), '=']
    else EncodeBlock(b[0], b[1], b[2]) + Encode(b[3..])
  }

  /** The input with every '\r' and '\n' removed, as Go's decoder skips them. */
  function StripNewlines(s: string): (t: string)
    ensures |t| <= |s|
    ensures forall i :: 0 <= i < |t| ==> t[i] in s && t[i] != '\n' && t[i] != '\r'
  {
    if s == [] then []
    else
      assert s == [s[0]] + s[1..];
      (if s[0] == '\n' || s[0] == '\r' then [] else [s[0]]) + StripNewlines(s[1..])
  }

  /** Stripping keeps every character other than the line breaks, as many times as it occurs. */
  lemma {:induction false} StripKeepsAll(s: string)
    ensures multiset(StripNewlines(s)) == multiset(s)['\r' := 0]['\n' := 0]
    decreases |s|
  {
    if s != [] {
      StripKeepsAll(s[1..]);
      assert s == [s[0]] + s[1..];
      var head := if s[0] == '\n' || s[0] == '\r' then [] else [s[0]];
      assert StripNewlines(s) == head + StripNewlines(s[1..]);
      StripKeepsStep(s[0], head, multiset(s[1..]));
    }
  }

  /** One step of `StripKeepsAll`: a line break adds nothing, any other character adds itself. */
  lemma StripKeepsStep(c: char, head: string, m: multiset<char>)
    requires head == if c == '\n' || c == '\r' then [] else [c]
    ensures multiset(head) + m['\r' := 0]['\n' := 0] == (multiset{c} + m)['\r' := 0]['\n' := 0]
  {
  }

  /** Line breaks are removed piece by piece: the rest keeps its order. */
  lemma {:induction false} StripAppend(a: string, b: string)
    ensures StripNewlines(a + b) == StripNewlines(a) + StripNewlines(b)
    decreases |a|
  {
    if a != [] {
      assert (a + b)[0] == a[0] && (a + b)[1..] == a[1..] + b;
      StripAppend(a[1..], b);
    } else {
      assert a + b == b;
    }
  }

  /** Four 6-bit values become three bytes. */
  function DecodeBlock(v0: int, v1: int, v2: int, v3: int): (b: seq<byte>)
    requires 0 <= v0 < 64 && 0 <= v1 < 64 && 0 <= v2 < 64 && 0 <= v3 < 64
  {
    [v0 * 4 + v1 / 16, v1 % 16 * 16 + v2 / 4, v2 % 4 * 64 + v3]
  }

  /** The last quantum: four characters, "xxx=" or "xx==". */
  function DecodeFinal(c0: char, c1: char, c2: char, c3: char): (r: Result<seq<byte>, DecodeError>)
    ensures r.Ok? <==>
      (IsAlphabet(c0) && IsAlphabet(c1) && ((c2 == '=' && c3 == '=') || (IsAlphabet(c2) && (c3 == '=' || IsAlphabet(c3)))))
    ensures r.Ok? ==> |r.value| == if c2 == '=' then 1 else if c3 == '=' then 2 else 3
    ensures r.Ok? ==> Encode(r.value) == CanonFinal(c0, c1, c2, c3)
  {
    if !IsAlphabet(c0) || !IsAlphabet(c1) then Err(CorruptInput)
    else if c2 == '=' && c3 == '=' then
      FinalOneByte(c0, c1);
      Ok([ValueOf(c0) * 4 + ValueOf(c1) / 16])
    else if IsAlphabet(c2) && c3 == '=' then
      FinalTwoBytes(c0, c1, c2);
      Ok(DecodeBlock(ValueOf(c0), ValueOf(c1), ValueOf(c2), 0)[..2])
    else if IsAlphabet(c2) && IsAlphabet(c3) then
      FullQuantumCanon(c0, c1, c2, c3);
      EncodeThree(DecodeBlock(ValueOf(c0), ValueOf(c1), ValueOf(c2), ValueOf(c3)));
      Ok(DecodeBlock(ValueOf(c0), ValueOf(c1), ValueOf(c2), ValueOf(c3)))
    else Err(CorruptInput)
  }

  /** Decoding of text already free of line breaks. */
  function DecodeQuanta(t: string): (r: Result<seq<byte>, DecodeError>)
    ensures r.Ok? ==> 4 * |r.value| <= 3 * |t|
    ensures r.Ok? ==> |t| % 4 == 0
    ensures r.Ok? ==> Encode(r.value) == Canon(t)
    decreases |t|
  {
    if |t| == 0 then Ok([])
    else if |t| < 4 then Err(CorruptInput)
    else if |t| == 4 then DecodeFinal(t[0], t[1], t[2], t[3])
    else if IsAlphabet(t[0]) && IsAlphabet(t[1]) && IsAlphabet(t[2]) && IsAlphabet(t[3]) then
      match DecodeQuanta(t[4..])
      case Ok(rest) =>
        var block := DecodeBlock(ValueOf(t[0]), ValueOf(t[1]), ValueOf(t[2]), ValueOf(t[3]));
        FullQuantumCanon(t[0], t[1], t[2], t[3]);
        ConsBlock(t, block, rest);
        Ok(block + rest)
      case Err(e) => Err(e)
    else Err(CorruptInput)
  }

  /**
   * Text the decoder accepts once line breaks are gone: whole quanta of alphabet characters,
   * with '=' only in the last two places, and a '=' in the next-to-last place followed by another.
   */
  predicate WellPadded(t: string)
  {
    && |t| % 4 == 0
    && (forall i :: 0 <= i < |t| ==> IsAlphabet(t[i]) || (t[i] == '=' && i >= |t| - 2))
    && (|t| >= 2 && t[|t| - 2] == '=' ==> t[|t| - 1] == '=')
  }

  /** `base64.StdEncoding.DecodeString`. */
  function Decode(s: string): (r: Result<seq<byte>, DecodeError>)
    ensures r.Ok? ==> 4 * |r.value| <= 3 * |s|
  {
    DecodeQuanta(StripNewlines(s))
  }

  /** `DecodeString` accepts a text exactly when, without its line breaks, it is well padded. */
  lemma DecodeAccepts(s: string)
    ensures Decode(s).Ok? <==> WellPadded(StripNewlines(s))
  {
    WellPaddedDecodes(StripNewlines(s));
  }

  /** A quantum in front of more text is well padded exactly when it is all alphabet and the rest is. */
  lemma WellPaddedCons(t: string)
    requires |t| > 4
    ensures WellPadded(t) <==>
      (IsAlphabet(t[0]) && IsAlphabet(t[1]) && IsAlphabet(t[2]) && IsAlphabet(t[3]) && WellPadded(t[4..]))
  {
    var r := t[4..];
    if WellPadded(t) {
      forall i | 0 <= i < |r|
        ensures IsAlphabet(r[i]) || (r[i] == '=' && i >= |r| - 2)
      {
        assert r[i] == t[i + 4];
      }
      assert t[0] != '=' && t[1] != '=' && t[2] != '=' && t[3] != '=';
    }
    if IsAlphabet(t[0]) && IsAlphabet(t[1]) && IsAlphabet(t[2]) && IsAlphabet(t[3]) && WellPadded(r) {
      forall i | 0 <= i < |t|
        ensures IsAlphabet(t[i]) || (t[i] == '=' && i >= |t| - 2)
      {
        if i >= 4 {
          assert t[i] == r[i - 4];
        }
      }
      assert t[|t| - 2] == r[|r| - 2] && t[|t| - 1] == r[|r| - 1];
    }
  }

  /** The decoder accepts exactly the well-padded texts. */
  lemma {:induction false} WellPaddedDecodes(t: string)
    ensures DecodeQuanta(t).Ok? <==> WellPadded(t)
    decreases |t|
  {
    if |t| > 4 {
      WellPaddedDecodes(t[4..]);
      WellPaddedCons(t);
    } else if |t| == 4 {
      assert WellPadded(t) ==> !(t[0] == '=' || t[1] == '=');
    }
  }

  // ---------------------------------------------------------------------------------------
  // Round trip

  lemma BlockRoundTrip(a: byte, b: byte, c: byte)
    ensures var s := EncodeBlock(a, b, c);
      DecodeBlock(ValueOf(s[0]), ValueOf(s[1]), ValueOf(s[2]), ValueOf(s[3])) == [a, b, c]
  {
    var v1 := a % 4 * 16 + b / 16;
    var v2 := b % 16 * 4 + c / 64;
    assert v1 / 16 == a % 4 && v1 % 16 == b / 16;
    assert v2 / 4 == b % 16 && v2 % 4 == c / 64;
  }

  lemma NoNewlinesInEncoding(b: seq<byte>)
    ensures StripNewlines(Encode(b)) == Encode(b)
  {
    StripIsIdentity(Encode(b));
  }

  lemma {:induction false} StripIsIdentity(s: string)
    requires forall i :: 0 <= i < |s| ==> s[i] != '\n' && s[i] != '\r'
    ensures StripNewlines(s) == s
  {
    if s != [] {
      StripIsIdentity(s[1..]);
    }
  }

  lemma OneByteRoundTrip(a: byte)
    ensures DecodeQuanta(Encode([a])) == Ok([a])
  {
    var s := Encode([a]);
    assert ValueOf(s[0]) == a / 4 && ValueOf(s[1]) == a % 4 * 16;
    assert (a % 4 * 16) / 16 == a % 4;
  }

  lemma TwoByteRoundTrip(a: byte, b: byte)
    ensures DecodeQuanta(Encode([a, b])) == Ok([a, b])
  {
    var s := Encode([a, b]);
    var v1 := a % 4 * 16 + b / 16;
    var v2 := b % 16 * 4;
    assert v1 / 16 == a % 4 && v1 % 16 == b / 16;
    assert v2 / 4 == b % 16;
    assert ValueOf(s[0]) == a / 4 && ValueOf(s[1]) == v1 && ValueOf(s[2]) == v2;
    assert a / 4 * 4 + a % 4 == a && b / 16 * 16 + b % 16 == b;
    assert DecodeBlock(a / 4, v1, v2, 0)[..2] == [a, b];
    assert DecodeFinal(s[0], s[1], s[2], s[3]) == Ok([a, b]);
  }

  /** A full quantum in front of further quanta decodes to its block in front of theirs. */
  lemma DecodeQuantaCons(head: string, rest: string, r: seq<byte>)
    requires |head| == 4 && forall i :: 0 <= i < 4 ==> IsAlphabet(head[i])
    requires |rest| > 0 && DecodeQuanta(rest) == Ok(r)
    ensures DecodeQuanta(head + rest)
      == Ok(DecodeBlock(ValueOf(head[0]), ValueOf(head[1]), ValueOf(head[2]), ValueOf(head[3])) + r)
  {
    var t := head + rest;
    assert t[4..] == rest;
    assert t[0] == head[0] && t[1] == head[1] && t[2] == head[2] && t[3] == head[3];
    assert IsAlphabet(t[0]) && IsAlphabet(t[1]) && IsAlphabet(t[2]) && IsAlphabet(t[3]);
    assert |t| > 4;
  }

  lemma EncodeUnfold(b: seq<byte>)
    requires |b| > 3
    ensures Encode(b) == EncodeBlock(b[0], b[1], b[2]) + Encode(b[3..])
    ensures |Encode(b[3..])| > 0
  {
  }

  /** An encoded block is four alphabet characters that decode to its three bytes. */
  lemma BlockDecodes(x: byte, y: byte, z: byte)
    ensures var h := EncodeBlock(x, y, z);
      && |h| == 4 && (forall i :: 0 <= i < 4 ==> IsAlphabet(h[i]))
      && DecodeBlock(ValueOf(h[0]), ValueOf(h[1]), ValueOf(h[2]), ValueOf(h[3])) == [x, y, z]
  {
    BlockRoundTrip(x, y, z);
  }

  /** A full quantum decoding to `block` in front of further quanta decodes to `block` in front of theirs. */
  lemma ConsEncoded(head: string, block: seq<byte>, rest: string, r: seq<byte>)
    requires |head| == 4 && forall i :: 0 <= i < 4 ==> IsAlphabet(head[i])
    requires DecodeBlock(ValueOf(head[0]), ValueOf(head[1]), ValueOf(head[2]), ValueOf(head[3])) == block
    requires |rest| > 0 && DecodeQuanta(rest) == Ok(r)
    ensures DecodeQuanta(head + rest) == Ok(block + r)
  {
    DecodeQuantaCons(head, rest, r);
  }

  lemma EncodeStep(b: seq<byte>)
    requires |b| > 3 && DecodeQuanta(Encode(b[3..])) == Ok(b[3..])
    ensures DecodeQuanta(Encode(b)) == Ok(b)
  {
    SplitThree(b);
    EncodeUnfold(b);
    BlockDecodes(b[0], b[1], b[2]);
    ConsEncoded(EncodeBlock(b[0], b[1], b[2]), [b[0], b[1], b[2]], Encode(b[3..]), b[3..]);
  }

  lemma SplitThree(b: seq<byte>)
    requires |b| >= 3
    ensures [b[0], b[1], b[2]] + b[3..] == b
  {
    assert b == b[..3] + b[3..];
  }

  lemma ThreeBlock(a: byte, b: byte, c: byte)
    ensures DecodeQuanta(EncodeBlock(a, b, c)) == Ok([a, b, c])
  {
    BlockRoundTrip(a, b, c);
  }

  lemma ThreeByteRoundTrip(b: seq<byte>)
    requires |b| == 3
    ensures DecodeQuanta(Encode(b)) == Ok(b)
  {
    EncodeThree(b);
    ThreeBlock(b[0], b[1], b[2]);
  }

  lemma EncodeThree(b: seq<byte>)
    requires |b| == 3
    ensures Encode(b) == EncodeBlock(b[0], b[1], b[2]) && b == [b[0], b[1], b[2]]
  {
    assert b[3..] == [];
    var e := EncodeBlock(b[0], b[1], b[2]);
    assert Encode(b) == e + Encode(b[3..]);
    assert Encode(b[3..]) == "" && e + "" == e;
  }

  lemma {:induction false} DecodeQuantaEncode(b: seq<byte>)
    ensures DecodeQuanta(Encode(b)) == Ok(b)
    decreases |b|
  {
    if |b| == 1 {
      OneByteRoundTrip(b[0]);
      assert b == [b[0]];
    } else if |b| == 2 {
      TwoByteRoundTrip(b[0], b[1]);
      assert b == [b[0], b[1]];
    } else if |b| == 3 {
      ThreeByteRoundTrip(b);
    } else if |b| > 3 {
      DecodeQuantaEncode(b[3..]);
      EncodeStep(b);
    }
  }

  /** Decoding what was encoded gives back the original bytes, byte for byte. */
  lemma DecodeEncode(b: seq<byte>)
    ensures Decode(Encode(b)) == Ok(b)
  {
    NoNewlinesInEncoding(b);
    DecodeQuantaEncode(b);
  }

  /** Encoding is injective, so distinct cursor texts give distinct cursors. */
  lemma EncodeInjective(b1: seq<byte>, b2: seq<byte>)
    requires Encode(b1) == Encode(b2)
    ensures b1 == b2
  {
    DecodeEncode(b1);
    DecodeEncode(b2);
  }

  // ---------------------------------------------------------------------------------------
  // What an accepted text decodes to

  /**
   * The last quantum as the encoder would have written it: the low bits the decoder ignores
   * (four before "==", two before "=") cleared.
   */
  function CanonFinal(c0: char, c1: char, c2: char, c3: char): string
  {
    if c2 == '=' && IsAlphabet(c1) then [c0, CharOf(ValueOf(c1) / 16 * 16), '=', '=']
    else if c3 == '=' && IsAlphabet(c2) then [c0, c1, CharOf(ValueOf(c2) / 4 * 4), '=']
    else [c0, c1, c2, c3]
  }

  /** A text of whole quanta with the ignored bits of its last quantum cleared. */
  function Canon(t: string): (u: string)
    ensures |u| == |t|
    decreases |t|
  {
    if |t| < 4 then t
    else if |t| == 4 then CanonFinal(t[0], t[1], t[2], t[3])
    else t[..4] + Canon(t[4..])
  }

  /** "xx==": the byte is the first value and the top two bits of the second. */
  lemma OneByteArith(v0: int, v1: int, a: int)
    requires 0 <= v0 < 64 && 0 <= v1 < 64 && a == v0 * 4 + v1 / 16
    ensures a / 4 == v0 && a % 4 * 16 == v1 / 16 * 16
  {
    var p := v1 / 16;
    assert 0 <= p < 4;
  }

  /** "xxx=": two bytes from three values, the low two bits of the third dropped. */
  lemma TwoByteArith(v0: int, v1: int, v2: int, a: int, b: int)
    requires 0 <= v0 < 64 && 0 <= v1 < 64 && 0 <= v2 < 64
    requires a == v0 * 4 + v1 / 16 && b == v1 % 16 * 16 + v2 / 4
    ensures a / 4 == v0 && a % 4 * 16 + b / 16 == v1 && b % 16 * 4 == v2 / 4 * 4
  {
    var p, q := v1 / 16, v1 % 16;
    var r := v2 / 4;
    assert v1 == p * 16 + q && 0 <= p < 4 && 0 <= q < 16 && 0 <= r < 16;
  }

  /** A full quantum: three bytes hold the four values exactly. */
  lemma ThreeByteArith(v0: int, v1: int, v2: int, v3: int, a: int, b: int, c: int)
    requires 0 <= v0 < 64 && 0 <= v1 < 64 && 0 <= v2 < 64 && 0 <= v3 < 64
    requires a == v0 * 4 + v1 / 16 && b == v1 % 16 * 16 + v2 / 4 && c == v2 % 4 * 64 + v3
    ensures a / 4 == v0 && a % 4 * 16 + b / 16 == v1 && b % 16 * 4 + c / 64 == v2 && c % 64 == v3
  {
    TwoByteArith(v0, v1, v2, a, b);
    var r, s := v2 / 4, v2 % 4;
    assert v2 == r * 4 + s && 0 <= s < 4;
  }

  /** The block of four values, encoded again, gives back the characters of those values. */
  lemma BlockOfValues(v0: int, v1: int, v2: int, v3: int)
    requires 0 <= v0 < 64 && 0 <= v1 < 64 && 0 <= v2 < 64 && 0 <= v3 < 64
    ensures var b := DecodeBlock(v0, v1, v2, v3);
      EncodeBlock(b[0], b[1], b[2]) == [CharOf(v0), CharOf(v1), CharOf(v2), CharOf(v3)]
  {
    var b := DecodeBlock(v0, v1, v2, v3);
    ThreeByteArith(v0, v1, v2, v3, b[0], b[1], b[2]);
  }

  /** A full quantum of alphabet characters is what the encoder writes for its three bytes. */
  lemma FullQuantumCanon(c0: char, c1: char, c2: char, c3: char)
    requires IsAlphabet(c0) && IsAlphabet(c1) && IsAlphabet(c2) && IsAlphabet(c3)
    ensures var b := DecodeBlock(ValueOf(c0), ValueOf(c1), ValueOf(c2), ValueOf(c3));
      EncodeBlock(b[0], b[1], b[2]) == [c0, c1, c2, c3]
  {
    BlockOfValues(ValueOf(c0), ValueOf(c1), ValueOf(c2), ValueOf(c3));
    CharOfValueOf(c0);
    CharOfValueOf(c1);
    CharOfValueOf(c2);
    CharOfValueOf(c3);
  }

  /** "xx==" decodes to the byte whose encoding is the quantum with the low four bits of `c1` cleared. */
  lemma FinalOneByte(c0: char, c1: char)
    requires IsAlphabet(c0) && IsAlphabet(c1)
    ensures Encode([ValueOf(c0) * 4 + ValueOf(c1) / 16]) == [c0, CharOf(ValueOf(c1) / 16 * 16), '=', '=']
  {
    var a := ValueOf(c0) * 4 + ValueOf(c1) / 16;
    OneByteArith(ValueOf(c0), ValueOf(c1), a);
    CharOfValueOf(c0);
  }

  /** "xxx=" decodes to the bytes whose encoding is the quantum with the low two bits of `c2` cleared. */
  lemma FinalTwoBytes(c0: char, c1: char, c2: char)
    requires IsAlphabet(c0) && IsAlphabet(c1) && IsAlphabet(c2)
    ensures Encode(DecodeBlock(ValueOf(c0), ValueOf(c1), ValueOf(c2), 0)[..2])
      == [c0, c1, CharOf(ValueOf(c2) / 4 * 4), '=']
  {
    var b := DecodeBlock(ValueOf(c0), ValueOf(c1), ValueOf(c2), 0);
    TwoByteArith(ValueOf(c0), ValueOf(c1), ValueOf(c2), b[0], b[1]);
    assert b[..2] == [b[0], b[1]];
    CharOfValueOf(c0);
    CharOfValueOf(c1);
  }

  /** Bytes whose first block encodes to the first quantum of `t` encode to that quantum in front of the rest. */
  lemma ConsBlock(t: string, block: seq<byte>, rest: seq<byte>)
    requires |t| >= 4 && |block| == 3 && EncodeBlock(block[0], block[1], block[2]) == [t[0], t[1], t[2], t[3]]
    ensures Encode(block + rest) == t[..4] + Encode(rest)
  {
    EncodeCons(block, rest);
    assert t[..4] == [t[0], t[1], t[2], t[3]];
  }

  /** Three bytes in front of more bytes encode to their block in front of the rest's encoding. */
  lemma EncodeCons(block: seq<byte>, rest: seq<byte>)
    requires |block| == 3
    ensures Encode(block + rest) == EncodeBlock(block[0], block[1], block[2]) + Encode(rest)
  {
    var b := block + rest;
    assert b[0] == block[0] && b[1] == block[1] && b[2] == block[2] && b[3..] == rest;
  }

  /**
   * Decoding is not strict: an accepted cursor decodes to the bytes whose encoding is the cursor
   * without line breaks and with the ignored bits of its last quantum cleared.
   */
  lemma EncodeDecode(s: string)
    requires Decode(s).Ok?
    ensures Encode(Decode(s).value) == Canon(StripNewlines(s))
  {
  }

  /** The bytes of an accepted cursor are the one byte string whose encoding is its canonical form. */
  lemma DecodeDetermined(s: string, b: seq<byte>)
    requires Decode(s).Ok?
    ensures Decode(s) == Ok(b) <==> Encode(b) == Canon(StripNewlines(s))
  {
    EncodeDecode(s);
    if Encode(b) == Canon(StripNewlines(s)) {
      EncodeInjective(b, Decode(s).value);
    }
  }

  /** Texts that differ only in the bits the decoder ignores decode to the same bytes. */
  lemma IgnoredBitsIgnored(s1: string, s2: string)
    requires Decode(s1).Ok? && Decode(s2).Ok?
    requires Canon(StripNewlines(s1)) == Canon(StripNewlines(s2))
    ensures Decode(s1) == Decode(s2)
  {
    EncodeDecode(s1);
    DecodeDetermined(s2, Decode(s1).value);
  }

  /** Encodings are already canonical: the encoder never sets an ignored bit. */
  lemma CanonOfEncoding(b: seq<byte>)
    ensures Canon(Encode(b)) == Encode(b)
  {
    DecodeEncode(b);
    NoNewlinesInEncoding(b);
    EncodeDecode(Encode(b));
  }

  /** A text containing a character outside the alphabet, other than padding and line breaks, is rejected. */
  lemma ForeignCharacterRejected(s: string, i: nat)
    requires i < |s| && !IsAlphabet(s[i]) && s[i] !in "=\r\n"
    ensures Decode(s).Err?
  {
    var t := StripNewlines(s);
    DecodeAccepts(s);
    StripKeepsAll(s);
    assert s[i] in multiset(s);
    assert s[i] in multiset(t);
    var j :| 0 <= j < |t| && t[j] == s[i];
  }

  /** Padding followed by a data character inside a quantum is rejected. */
  lemma PaddingInsideRejected(c0: char, c1: char, c3: char)
    requires IsAlphabet(c0) && IsAlphabet(c1) && IsAlphabet(c3)
    ensures Decode([c0, c1, '=', c3]).Err?
  {
    var t := [c0, c1, '=', c3];
    StripIsIdentity(t);
    DecodeAccepts(t);
    assert t[|t| - 2] == '=' && t[|t| - 1] != '=';
  }

  /** More than two padding characters are rejected. */
  lemma ExcessPaddingRejected(c0: char)
    requires IsAlphabet(c0)
    ensures Decode([c0, '=', '=', '=']).Err?
  {
    var t := [c0, '=', '=', '='];
    StripIsIdentity(t);
    DecodeAccepts(t);
    assert !IsAlphabet(t[1]) && 1 < |t| - 2;
  }

  /** Padding before the last quantum is rejected. */
  lemma EarlyPaddingRejected(c0: char, c1: char, c4: char, c5: char)
    requires IsAlphabet(c0) && IsAlphabet(c1) && IsAlphabet(c4) && IsAlphabet(c5)
    ensures Decode([c0, c1, '=', '=', c4, c5, '=', '=']).Err?
  {
    var t := [c0, c1, '=', '=', c4, c5, '=', '='];
    StripIsIdentity(t);
    DecodeAccepts(t);
    assert !IsAlphabet(t[2]) && 2 < |t| - 2;
  }

  /** The test vectors of section 10 of RFC 4648 up to one block: "f", "fo", "foo". */
  lemma StandardVectorsShort()
    ensures Encode([102]) == "Zg=="
    ensures Encode([102, 111]) == "Zm8="
    ensures Encode([102, 111, 111]) == "Zm9v"
  {
  }

  /** The test vector "foob" of section 10 of RFC 4648. */
  lemma StandardVectorFoob()
    ensures Encode([102, 111, 111, 98]) == "Zm9vYg=="
  {
    var b: seq<byte> := [102, 111, 111, 98];
    assert b[3..] == [98];
    assert Encode(b[3..]) == "Yg==";
    assert EncodeBlock(102, 111, 111) == "Zm9v";
  }

  /** The test vector "fooba" of section 10 of RFC 4648. */
  lemma StandardVectorFooba()
    ensures Encode([102, 111, 111, 98, 97]) == "Zm9vYmE="
  {
    var b: seq<byte> := [102, 111, 111, 98, 97];
    assert b[3..] == [98, 97];
    assert Encode(b[3..]) == "YmE=";
    assert EncodeBlock(102, 111, 111) == "Zm9v";
  }

  /** The test vector "foobar" of section 10 of RFC 4648. */
  lemma StandardVectorFoobar()
    ensures Encode([102, 111, 111, 98, 97, 114]) == "Zm9vYmFy"
  {
    EncodeTwoBlocks([102, 111, 111, 98, 97, 114]);
    FooBlock();
    BarBlock();
  }

  /** The first block of "foobar". */
  lemma FooBlock()
    ensures EncodeBlock(102, 111, 111) == "Zm9v"
  {
  }

  /** The second block of "foobar". */
  lemma BarBlock()
    ensures EncodeBlock(98, 97, 114) == "YmFy"
  {
  }

  /** Six bytes encode to two blocks. */
  lemma EncodeTwoBlocks(b: seq<byte>)
    requires |b| == 6
    ensures Encode(b) == EncodeBlock(b[0], b[1], b[2]) + EncodeBlock(b[3], b[4], b[5])
  {
    EncodeThree(b[3..]);
  }
}
