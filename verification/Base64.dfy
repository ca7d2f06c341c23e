/** Base 64 as the server decodes it: padded, newlines skipped, URL-safe alphabet (section 5 of RFC 4648). */
module Base64 {
  import opened Common

  /** The standard alphabet (section 4 of RFC 4648) differs only in the digits 62 and 63. */
  datatype Alphabet = Std | Url

  type Sextet = n: int | 0 <= n < 64

  function Digit(alphabet: Alphabet, n: Sextet): char {
    if n < 26 then ('A' as int + n) as char
    else if n < 52 then ('a' as int + (n - 26)) as char
    else if n < 62 then ('0' as int + (n - 52)) as char
    else if n == 62 then (if alphabet.Std? then '+' else '-')
    else if alphabet.Std? then '/' else '_'
  }

  function Value(alphabet: Alphabet, c: char): Option<Sextet> {
    if 'A' <= c <= 'Z' then Some(c as int - 'A' as int)
    else if 'a' <= c <= 'z' then Some(c as int - 'a' as int + 26)
    else if '0' <= c <= '9' then Some(c as int - '0' as int + 52)
    else if c == (if alphabet.Std? then '+' else '-') then Some(62)
    else if c == (if alphabet.Std? then '/' else '_') then Some(63)
    else None
  }

  function Digits(alphabet: Alphabet, sextets: seq<Sextet>): string {
    seq(|sextets|, i requires 0 <= i < |sextets| => Digit(alphabet, sextets[i]))
  }

  /** The sextets of one group of up to three bytes, the last padded with zero bits. */
  function GroupSextets(b: Bytes): seq<Sextet>
    requires 1 <= |b| <= 3
  {
    if |b| == 1 then [b[0] / 4, b[0] % 4 * 16]
    else if |b| == 2 then [b[0] / 4, b[0] % 4 * 16 + b[1] / 16, b[1] % 16 * 4]
    else [b[0] / 4, b[0] % 4 * 16 + b[1] / 16, b[1] % 16 * 4 + b[2] / 64, b[2] % 64]
  }

  function Sextets(b: Bytes): seq<Sextet> {
    if |b| == 0 then [] else if |b| <= 3 then GroupSextets(b) else GroupSextets(b[..3]) + Sextets(b[3..])
  }

  function EncodeGroup(alphabet: Alphabet, b: Bytes): string
    requires 1 <= |b| <= 3
  {
    Digits(alphabet, GroupSextets(b)) + (if |b| == 1 then "==" else if |b| == 2 then "=" else "")
  }

  function Encode(alphabet: Alphabet, b: Bytes): string {
    if |b| == 0 then "" else if |b| <= 3 then EncodeGroup(alphabet, b)
    else EncodeGroup(alphabet, b[..3]) + Encode(alphabet, b[3..])
  }

  function StripNewlines(s: string): string {
    if s == "" then "" else (if s[0] == '\r' || s[0] == '\n' then "" else [s[0]]) + StripNewlines(s[1..])
  }

  /** The bytes of one group of four characters; padding is legal only in the last group. */
  function DecodeGroup(alphabet: Alphabet, s: string, last: bool): Option<Bytes>
    requires |s| == 4
  {
    var a, b, c, d := Value(alphabet, s[0]), Value(alphabet, s[1]), Value(alphabet, s[2]), Value(alphabet, s[3]);
    if a.None? || b.None? then None
    else if s[2] == '=' then
      if s[3] == '=' && last then Some([a.value * 4 + b.value / 16]) else None
    else if c.None? then None
    else if s[3] == '=' then
      if last then Some([a.value * 4 + b.value / 16, b.value % 16 * 16 + c.value / 4]) else None
    else if d.None? then None
    else Some([a.value * 4 + b.value / 16, b.value % 16 * 16 + c.value / 4, c.value % 4 * 64 + d.value])
  }

  function DecodeGroups(alphabet: Alphabet, s: string): Option<Bytes> {
    if s == "" then Some([])
    else if |s| < 4 then None
    else match DecodeGroup(alphabet, s[..4], |s| == 4)
      case None => None
      case Some(head) =>
        match DecodeGroups(alphabet, s[4..])
        case None => None
        case Some(tail) => Some(head + tail)
  }

  function Decode(alphabet: Alphabet, s: string): Option<Bytes> {
    DecodeGroups(alphabet, StripNewlines(s))
  }

  /** No sextet of the text is one of the two on which the alphabets differ. */
  ghost predicate AvoidsSpecialDigits(sextets: seq<Sextet>) {
    forall i :: 0 <= i < |sextets| ==> sextets[i] < 62
  }

  lemma {:induction false} StripsNothing(s: string)
    requires forall i :: 0 <= i < |s| ==> s[i] != '\r' && s[i] != '\n'
    ensures StripNewlines(s) == s
  {
    if s != "" { StripsNothing(s[1..]); }
  }

  lemma {:induction false} EncodeShape(alphabet: Alphabet, b: Bytes)
    ensures |Encode(alphabet, b)| % 4 == 0 && (b != [] ==> |Encode(alphabet, b)| >= 4)
    ensures var s := Encode(alphabet, b); forall i :: 0 <= i < |s| ==> s[i] != '\r' && s[i] != '\n'
  {
    if |b| > 3 { EncodeShape(alphabet, b[3..]); }
  }

  lemma DigitValue(written: Alphabet, n: Sextet)
    ensures Value(Url, Digit(written, n)) == if written.Url? || n < 62 then Some(n) else None
    ensures Digit(written, n) != '='
  {
  }

  /** The value of each digit of a group, and that none is padding. */
  lemma GroupDigits(written: Alphabet, b: Bytes)
    requires 1 <= |b| <= 3
    ensures var x, s := GroupSextets(b), EncodeGroup(written, b);
      |s| == 4 && (|b| < 3 ==> s[3] == '=') && (|b| < 2 ==> s[2] == '=') &&
      forall i :: 0 <= i < |x| ==>
        s[i] != '=' && Value(Url, s[i]) == if written.Url? || x[i] < 62 then Some(x[i]) else None
  {
    var x := GroupSextets(b);
    forall i | 0 <= i < |x|
      ensures Digit(written, x[i]) != '='
      ensures Value(Url, Digit(written, x[i])) == if written.Url? || x[i] < 62 then Some(x[i]) else None
    {
      DigitValue(written, x[i]);
    }
  }

  /** Splitting three bytes into sextets and packing them again. */
  lemma Repack(b0: Byte, b1: Byte, b2: Byte)
    ensures var x0: int, x1: int, x2: int, x3: int := b0 / 4, b0 % 4 * 16 + b1 / 16, b1 % 16 * 4 + b2 / 64, b2 % 64;
      x0 * 4 + x1 / 16 == b0 && x1 % 16 * 16 + x2 / 4 == b1 && x2 % 4 * 64 + x3 == b2
  {
  }

  lemma GroupOfOne(written: Alphabet, b: Bytes)
    requires |b| == 1
    ensures DecodeGroup(Url, EncodeGroup(written, b), true) ==
      if written.Url? || AvoidsSpecialDigits(GroupSextets(b)) then Some(b) else None
  {
    GroupDigits(written, b);
    Repack(b[0], 0, 0);
    assert b == [b[0]];
  }

  lemma GroupOfTwo(written: Alphabet, b: Bytes)
    requires |b| == 2
    ensures DecodeGroup(Url, EncodeGroup(written, b), true) ==
      if written.Url? || AvoidsSpecialDigits(GroupSextets(b)) then Some(b) else None
  {
    GroupDigits(written, b);
    Repack(b[0], b[1], 0);
    assert b == [b[0], b[1]];
  }

  lemma GroupOfThree(written: Alphabet, b: Bytes, last: bool)
    requires |b| == 3
    ensures DecodeGroup(Url, EncodeGroup(written, b), last) ==
      if written.Url? || AvoidsSpecialDigits(GroupSextets(b)) then Some(b) else None
  {
    GroupDigits(written, b);
    Repack(b[0], b[1], b[2]);
    assert b == [b[0], b[1], b[2]];
  }

  /** Decoding one group written in either alphabet. */
  lemma GroupRoundTrip(written: Alphabet, b: Bytes, last: bool)
    requires 1 <= |b| <= 3 && (|b| < 3 ==> last)
    ensures DecodeGroup(Url, EncodeGroup(written, b), last) ==
      if written.Url? || AvoidsSpecialDigits(GroupSextets(b)) then Some(b) else None
  {
    if |b| == 1 {
      GroupOfOne(written, b);
    } else if |b| == 2 {
      GroupOfTwo(written, b);
    } else {
      GroupOfThree(written, b, last);
    }
  }

  lemma SpecialDigitsConcat(x: seq<Sextet>, y: seq<Sextet>)
    ensures AvoidsSpecialDigits(x + y) <==> AvoidsSpecialDigits(x) && AvoidsSpecialDigits(y)
  {
    if AvoidsSpecialDigits(x + y) {
      assert forall i :: 0 <= i < |x| ==> x[i] == (x + y)[i];
      assert forall i :: 0 <= i < |y| ==> y[i] == (x + y)[|x| + i];
    }
  }

  /**
    Decoding with the URL-safe alphabet what was encoded in either: text written in that alphabet
    always comes back; text in the standard alphabet comes back exactly when it uses neither digit
    on which the two differ, and is refused otherwise.
  */
  lemma {:induction false} DecodeEncodedGroups(written: Alphabet, b: Bytes)
    ensures DecodeGroups(Url, Encode(written, b)) ==
      if written.Url? || AvoidsSpecialDigits(Sextets(b)) then Some(b) else None
  {
    var s := Encode(written, b);
    if |b| == 0 {
    } else if |b| <= 3 {
      GroupRoundTrip(written, b, true);
      assert s[..4] == s && s[4..] == "";
      assert b + [] == b;
    } else {
      var head, tail := b[..3], b[3..];
      GroupRoundTrip(written, head, false);
      EncodeShape(written, tail);
      DecodeEncodedGroups(written, tail);
      assert s[..4] == EncodeGroup(written, head) && s[4..] == Encode(written, tail);
      assert head + tail == b;
      SpecialDigitsConcat(GroupSextets(head), Sextets(tail));
    }
  }

  lemma DecodeEncoded(written: Alphabet, b: Bytes)
    ensures Decode(Url, Encode(written, b)) ==
      if written.Url? || AvoidsSpecialDigits(Sextets(b)) then Some(b) else None
  {
    EncodeShape(written, b);
    StripsNothing(Encode(written, b));
    DecodeEncodedGroups(written, b);
  }

  /** Examples of section 10 of RFC 4648, and one for the digits on which the alphabets differ. */
  lemma KnownEncodings()
    ensures Encode(Url, [102]) == "Zg==" && Encode(Url, [102, 111]) == "Zm8=" && Encode(Url, [102, 111, 111]) == "Zm9v"
    ensures Encode(Url, [102, 111, 111, 98, 97, 114]) == "Zm9vYmFy"
    ensures Encode(Url, [251, 255]) == "-_8=" && Encode(Std, [251, 255]) == "+/8="
  {
    var foo, bar: Bytes := [102, 111, 111], [98, 97, 114];
    assert foo + bar == [102, 111, 111, 98, 97, 114];
    assert Encode(Url, bar) == "YmFy";
    assert (foo + bar)[..3] == foo && (foo + bar)[3..] == bar;
  }

  lemma ValueDigit(c: char)
    ensures Value(Url, c).Some? ==> Digit(Url, Value(Url, c).value) == c
    ensures Value(Url, '=') == None
  {
  }

  /** Packing four sextets into bytes and splitting them again. */
  lemma Unpack(v0: Sextet, v1: Sextet, v2: Sextet, v3: Sextet)
    ensures var b0: int, b1: int, b2: int := v0 * 4 + v1 / 16, v1 % 16 * 16 + v2 / 4, v2 % 4 * 64 + v3;
      b0 / 4 == v0 && b0 % 4 * 16 + b1 / 16 == v1 && b1 % 16 * 4 + b2 / 64 == v2 && b2 % 64 == v3
  {
  }

  /** The digit whose low bits carry nothing: the last one before the padding. */
  predicate SpareAt(e: string, i: int)
    requires 0 <= i < |e|
  {
    e[i] != '=' && i + 1 < |e| && e[i + 1] == '='
  }

  /** The same characters, but perhaps for a digit whose low bits carry nothing. */
  ghost predicate SameButSpare(s: string, e: string) {
    |s| == |e| && forall i :: 0 <= i < |e| && !SpareAt(e, i) ==> s[i] == e[i]
  }

  lemma GroupIsEncoding(s: string, last: bool)
    requires |s| == 4 && DecodeGroup(Url, s, last).Some?
    ensures var b := DecodeGroup(Url, s, last).value;
      1 <= |b| <= 3 && (|b| < 3 ==> last) && SameButSpare(s, EncodeGroup(Url, b))
  {
    var b := DecodeGroup(Url, s, last).value;
    var v0, v1 := Value(Url, s[0]).value, Value(Url, s[1]).value;
    ValueDigit(s[0]);
    ValueDigit(s[1]);
    ValueDigit(s[2]);
    ValueDigit(s[3]);
    if |b| == 1 {
      Unpack(v0, v1, 0, 0);
      assert EncodeGroup(Url, b)[..] == [s[0], Digit(Url, b[0] % 4 * 16), '=', '='];
    } else if |b| == 2 {
      var v2 := Value(Url, s[2]).value;
      Unpack(v0, v1, v2, 0);
      assert EncodeGroup(Url, b)[..] == [s[0], s[1], Digit(Url, b[1] % 16 * 4), '='];
      DigitValue(Url, b[1] % 16 * 4);
    } else {
      var v2, v3 := Value(Url, s[2]).value, Value(Url, s[3]).value;
      Unpack(v0, v1, v2, v3);
      assert EncodeGroup(Url, b)[..] == [s[0], s[1], s[2], s[3]];
    }
  }

  lemma SameButSpareConcat(s0: string, e0: string, s1: string, e1: string)
    requires SameButSpare(s0, e0) && SameButSpare(s1, e1) && |e0| == 4 && e0[3] != '='
    requires e1 != "" ==> e1[0] != '='
    ensures SameButSpare(s0 + s1, e0 + e1)
  {
    var s, e := s0 + s1, e0 + e1;
    forall i | 0 <= i < |e| && !SpareAt(e, i)
      ensures s[i] == e[i]
    {
      if i < 4 {
        assert SpareAt(e0, i) ==> SpareAt(e, i);
        assert s[i] == s0[i] && e[i] == e0[i];
      } else {
        assert SpareAt(e1, i - 4) ==> SpareAt(e, i);
        assert s[i] == s1[i - 4] && e[i] == e1[i - 4];
      }
    }
  }

  lemma FirstIsDigit(b: Bytes)
    requires b != []
    ensures Encode(Url, b) != "" && Encode(Url, b)[0] != '='
  {
    GroupDigits(Url, if |b| <= 3 then b else b[..3]);
  }

  lemma {:induction false} GroupsAreEncodings(s: string)
    requires DecodeGroups(Url, s).Some?
    ensures SameButSpare(s, Encode(Url, DecodeGroups(Url, s).value))
    decreases |s|
  {
    if s != "" {
      var head, tail := DecodeGroup(Url, s[..4], |s| == 4).value, DecodeGroups(Url, s[4..]).value;
      GroupIsEncoding(s[..4], |s| == 4);
      GroupsAreEncodings(s[4..]);
      assert s == s[..4] + s[4..];
      if |s| == 4 {
        assert s[4..] == "" && head + tail == head;
      } else {
        var b := head + tail;
        assert |head| == 3 && tail != [];
        assert b[..3] == head && b[3..] == tail;
        GroupDigits(Url, head);
        FirstIsDigit(tail);
        SameButSpareConcat(s[..4], EncodeGroup(Url, head), s[4..], Encode(Url, tail));
      }
    }
  }

  /** Nothing else decodes: newlines aside, a text that does is the encoding of its bytes, up to spare bits. */
  lemma OnlyEncodingsDecode(s: string)
    ensures Decode(Url, s).Some? ==> SameButSpare(StripNewlines(s), Encode(Url, Decode(Url, s).value))
  {
    if Decode(Url, s).Some? {
      GroupsAreEncodings(StripNewlines(s));
    }
  }
}
