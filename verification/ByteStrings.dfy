/** NUL-terminated strings in byte arrays, as Rust reads them. */
module ByteStrings {
  import opened Options
  import opened Words

  /** Where the first NUL is, or the length. */
  function FirstNul(s: seq<byte>): (n: nat)
    ensures n <= |s|
    ensures n < |s| ==> s[n] == 0
    ensures 0 !in s[..n]
  {
    if s == [] || s[0] == 0 then 0
    else
      var n := FirstNul(s[1..]);
      assert s[..n + 1] == [s[0]] + s[1..][..n];
      n + 1
  }

  predicate Continues(b: byte) { 0x80 <= b <= 0xBF }

  /** Section 4 of RFC 3629. */
  predicate ValidUtf8(s: seq<byte>)
    decreases |s|
  {
    if s == [] then true
    else if s[0] <= 0x7F then ValidUtf8(s[1..])
    else if 0xC2 <= s[0] <= 0xDF then |s| >= 2 && Continues(s[1]) && ValidUtf8(s[2..])
    else if 0xE0 <= s[0] <= 0xEF then
      && |s| >= 3 && Continues(s[1]) && Continues(s[2])
      && (s[0] == 0xE0 ==> s[1] >= 0xA0) && (s[0] == 0xED ==> s[1] <= 0x9F)
      && ValidUtf8(s[3..])
    else
      && 0xF0 <= s[0] <= 0xF4
      && |s| >= 4 && Continues(s[1]) && Continues(s[2]) && Continues(s[3])
      && (s[0] == 0xF0 ==> s[1] >= 0x90) && (s[0] == 0xF4 ==> s[1] <= 0x8F)
      && ValidUtf8(s[4..])
  }

  /** bytes_as_str: fails without a NUL, and on invalid UTF-8 before it. */
  function BytesAsStr(s: seq<byte>): Option<seq<byte>> {
    var n := FirstNul(s);
    if n < |s| && ValidUtf8(s[..n]) then Some(s[..n]) else None
  }

  /** A string is read exactly if it is valid, has no NUL in it, and one follows it. */
  lemma BytesAsStrExactly(s: seq<byte>, t: seq<byte>)
    ensures BytesAsStr(s) == Some(t) <==>
      |t| < |s| && t == s[..|t|] && s[|t|] == 0 && 0 !in t && ValidUtf8(t)
  {
    hide ValidUtf8;
    if |t| < |s| && t == s[..|t|] && s[|t|] == 0 && 0 !in t {
      FirstNulIs(s, |t|);
    }
  }

  // ---- UTF-8 is what encodes characters ----

  predicate Scalar(c: nat) { c < 0xD800 || 0xE000 <= c < 0x11_0000 }

  /** Section 3 of RFC 3629. */
  function Encoded(c: nat): (s: seq<byte>)
    requires Scalar(c)
    ensures 1 <= |s| <= 4
  {
    if c < 0x80 then [c]
    else if c < 0x800 then [0xC0 + c / 64, 0x80 + c % 64]
    else if c < 0x1_0000 then [0xE0 + c / 4096, 0x80 + c / 64 % 64, 0x80 + c % 64]
    else [0xF0 + c / 262144, 0x80 + c / 4096 % 64, 0x80 + c / 64 % 64, 0x80 + c % 64]
  }

  function EncodedAll(cs: seq<nat>): seq<byte>
    requires forall c :: c in cs ==> Scalar(c)
  {
    if cs == [] then [] else Encoded(cs[0]) + EncodedAll(cs[1..])
  }

  lemma EncodedThen(c: nat, rest: seq<byte>)
    requires Scalar(c)
    ensures ValidUtf8(Encoded(c) + rest) <==> ValidUtf8(rest)
  {
    EncodedBytes(c);
    var e := Encoded(c);
    hide Encoded;
    var s := e + rest;
    assert s[|e|..] == rest;
    assert s[0] == e[0];
    assert |e| > 1 ==> s[1] == e[1];
    assert |e| > 2 ==> s[2] == e[2];
    assert |e| > 3 ==> s[3] == e[3];
  }

  /** The first byte says how many there are, and bounds the second. */
  lemma EncodedBytes(c: nat)
    requires Scalar(c)
    ensures var e := Encoded(c);
      && (forall i :: 0 < i < |e| ==> Continues(e[i]))
      && match |e|
         case 1 => e[0] <= 0x7F
         case 2 => 0xC2 <= e[0] <= 0xDF
         case 3 => 0xE0 <= e[0] <= 0xEF && (e[0] == 0xE0 ==> e[1] >= 0xA0) && (e[0] == 0xED ==> e[1] <= 0x9F)
         case _ => 0xF0 <= e[0] <= 0xF4 && (e[0] == 0xF0 ==> e[1] >= 0x90) && (e[0] == 0xF4 ==> e[1] <= 0x8F)
  {
    var h, d := c / 64, c % 64;
    var g, m := h / 64, h % 64;
    var f, n := g / 64, g % 64;
    assert c == 64 * h + d && h == 64 * g + m && g == 64 * f + n;
    DivModUnique(c, 4096, g, 64 * m + d);
    DivModUnique(c, 262144, f, 4096 * n + 64 * m + d);
  }

  function Low6(b: byte): int { b - 0x80 }

  lemma Digits(a: nat, b: nat, c: nat, d: nat)
    requires b < 64 && c < 64 && d < 64
    ensures var n := a * 262144 + b * 4096 + c * 64 + d;
      n / 262144 == a && n / 4096 == a * 64 + b && n / 4096 % 64 == b && n / 64 % 64 == c && n % 64 == d
  {
    var n := a * 262144 + b * 4096 + c * 64 + d;
    DivModUnique(n, 262144, a, b * 4096 + c * 64 + d);
    DivModUnique(n, 4096, a * 64 + b, c * 64 + d);
    DivModUnique(n, 64, a * 4096 + b * 64 + c, d);
    DivModUnique(a * 64 + b, 64, a, b);
    DivModUnique(a * 4096 + b * 64 + c, 64, a * 64 + b, c);
  }

  /** The character a string starts with, and how many bytes it takes. */
  lemma FirstCharacter(s: seq<byte>) returns (c: nat)
    requires s != [] && ValidUtf8(s)
    ensures Scalar(c) && |Encoded(c)| <= |s| && s[..|Encoded(c)|] == Encoded(c) && ValidUtf8(s[|Encoded(c)|..])
  {
    var b: int := s[0];
    if b <= 0x7F {
      c := b;
    } else {
      hide Encoded;
      if b <= 0xDF {
        c := (b - 0xC0) * 64 + Low6(s[1]);
        Digits(0, 0, b - 0xC0, Low6(s[1]));
        EncodedIn(c, s[..2]);
      } else if b <= 0xEF {
        c := (b - 0xE0) * 4096 + Low6(s[1]) * 64 + Low6(s[2]);
        Digits(0, b - 0xE0, Low6(s[1]), Low6(s[2]));
        EncodedIn(c, s[..3]);
      } else {
        c := (b - 0xF0) * 262144 + Low6(s[1]) * 4096 + Low6(s[2]) * 64 + Low6(s[3]);
        Digits(b - 0xF0, Low6(s[1]), Low6(s[2]), Low6(s[3]));
        EncodedIn(c, s[..4]);
      }
    }
  }

  lemma EncodedIn(c: nat, s: seq<byte>)
    requires Scalar(c) && 2 <= |s| <= 4 && s[|s| - 1] == 0x80 + c % 64
    requires |s| == 2 ==> 0x80 <= c < 0x800 && s[0] == 0xC0 + c / 64
    requires |s| == 3 ==> 0x800 <= c < 0x1_0000 && s[0] == 0xE0 + c / 4096 && s[1] == 0x80 + c / 64 % 64
    requires |s| == 4 ==>
      0x1_0000 <= c && s[0] == 0xF0 + c / 262144 && s[1] == 0x80 + c / 4096 % 64 && s[2] == 0x80 + c / 64 % 64
    ensures s == Encoded(c)
  {
  }

  lemma {:induction false} EncodedAllIsValid(cs: seq<nat>)
    requires forall c :: c in cs ==> Scalar(c)
    ensures ValidUtf8(EncodedAll(cs))
  {
    if cs != [] {
      EncodedAllIsValid(cs[1..]);
      EncodedThen(cs[0], EncodedAll(cs[1..]));
    }
  }

  lemma {:induction false} Characters(s: seq<byte>) returns (cs: seq<nat>)
    requires ValidUtf8(s)
    ensures (forall c :: c in cs ==> Scalar(c)) && s == EncodedAll(cs)
    decreases |s|
  {
    hide ValidUtf8, Encoded;
    if s == [] {
      return [];
    }
    var c := FirstCharacter(s);
    var rest := Characters(s[|Encoded(c)|..]);
    cs := [c] + rest;
    assert cs[1..] == rest;
  }

  /** Valid are exactly the encodings of sequences of Unicode scalar values. */
  lemma Utf8Exactly(s: seq<byte>)
    ensures ValidUtf8(s) <==> exists cs: seq<nat> :: (forall c :: c in cs ==> Scalar(c)) && s == EncodedAll(cs)
  {
    hide ValidUtf8, EncodedAll;
    if ValidUtf8(s) {
      var cs := Characters(s);
    }
    forall cs: seq<nat> | (forall c :: c in cs ==> Scalar(c)) && s == EncodedAll(cs) ensures ValidUtf8(s) {
      EncodedAllIsValid(cs);
    }
  }

  lemma PrefixMembers(s: seq<byte>, n: nat)
    requires n <= |s|
    ensures forall i :: 0 <= i < n ==> s[i] in s[..n]
  {
    forall i | 0 <= i < n ensures s[i] in s[..n] {
      assert s[..n][i] == s[i];
    }
  }

  lemma FirstNulIs(s: seq<byte>, n: nat)
    requires n < |s| && s[n] == 0 && 0 !in s[..n]
    ensures FirstNul(s) == n
  {
    PrefixMembers(s, n);
    PrefixMembers(s, FirstNul(s));
  }
}
