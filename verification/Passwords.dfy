/** Shadowsocks password normalisation: common/helper.go, EnsureBase64Password, over base64 with padding
    (section 4 of RFC 4648) as Go's standard encoding reads and writes it. A Go string is a sequence of
    bytes, written here as chars. */
module Passwords {
  import opened Wrappers

  newtype byte = n: int | 0 <= n < 256

  /** The 64-character alphabet, as one range test per run of characters. */
  function Digit(n: int): (c: char)
    requires 0 <= n < 64
  {
    if n < 26 then 'A' + n as char
    else if n < 52 then 'a' + (n - 26) as char
    else if n < 62 then '0' + (n - 52) as char
    else if n == 62 then '+'
    else '/'
  }

  function Value(c: char): (n: int)
    ensures -1 <= n < 64
  {
    if 'A' <= c <= 'Z' then (c - 'A') as int
    else if 'a' <= c <= 'z' then (c - 'a') as int + 26
    else if '0' <= c <= '9' then (c - '0') as int + 52
    else if c == '+' then 62
    else if c == '/' then 63
    else -1
  }

  lemma ValueOfDigit(n: int)
    requires 0 <= n < 64
    ensures Value(Digit(n)) == n && Digit(n) != '=' && Digit(n) != '\r' && Digit(n) != '\n'
  {
  }

  /** The four digits of three bytes. */
  function Digit0(x: byte): (n: int)
    ensures 0 <= n < 64
  {
    x as int / 4
  }

  function Digit1(x: byte, y: byte): (n: int)
    ensures 0 <= n < 64
  {
    x as int % 4 * 16 + y as int / 16
  }

  function Digit2(y: byte, z: byte): (n: int)
    ensures 0 <= n < 64
  {
    y as int % 16 * 4 + z as int / 64
  }

  function Digit3(z: byte): (n: int)
    ensures 0 <= n < 64
  {
    z as int % 64
  }

  function Encode(b: seq<byte>): string {
    if b == [] then []
    else if |b| == 1 then [Digit(Digit0(b[0])), Digit(Digit1(b[0], 0)), '=', '=']
    else if |b| == 2 then [Digit(Digit0(b[0])), Digit(Digit1(b[0], b[1])), Digit(Digit2(b[1], 0)), '=']
    else
      [Digit(Digit0(b[0])), Digit(Digit1(b[0], b[1])), Digit(Digit2(b[1], b[2])), Digit(Digit3(b[2]))]
      + Encode(b[3..])
  }

  /** Line breaks are skipped wherever they stand. */
  function WithoutBreaks(s: string): string {
    if s == [] then []
    else if s[0] == '\r' || s[0] == '\n' then WithoutBreaks(s[1..])
    else [s[0]] + WithoutBreaks(s[1..])
  }

  function First(v0: int, v1: int): byte
    requires 0 <= v0 < 64 && 0 <= v1 < 64
  {
    (v0 * 4 + v1 / 16) as byte
  }

  function Second(v1: int, v2: int): byte
    requires 0 <= v1 < 64 && 0 <= v2 < 64
  {
    (v1 % 16 * 16 + v2 / 4) as byte
  }

  function Third(v2: int, v3: int): byte
    requires 0 <= v2 < 64 && 0 <= v3 < 64
  {
    (v2 % 4 * 64 + v3) as byte
  }

  /** Four characters at a time; padding only in the last group, and left-over bits there not looked at. */
  function DecodeGroups(s: string): Option<seq<byte>> {
    if s == [] then Some([])
    else if |s| < 4 || Value(s[0]) < 0 || Value(s[1]) < 0 then None
    else if s[2] == '=' then
      if |s| == 4 && s[3] == '=' then Some([First(Value(s[0]), Value(s[1]))]) else None
    else if Value(s[2]) < 0 then None
    else if s[3] == '=' then
      if |s| == 4 then Some([First(Value(s[0]), Value(s[1])), Second(Value(s[1]), Value(s[2]))]) else None
    else if Value(s[3]) < 0 then None
    else
      match DecodeGroups(s[4..])
      case None => None
      case Some(rest) =>
        Some([First(Value(s[0]), Value(s[1])), Second(Value(s[1]), Value(s[2])), Third(Value(s[2]), Value(s[3]))] +
            rest)
  }

  function Decode(s: string): Option<seq<byte>> {
    DecodeGroups(WithoutBreaks(s))
  }

  lemma {:induction false} EncodeHasNoBreaks(b: seq<byte>)
    ensures WithoutBreaks(Encode(b)) == Encode(b)
  {
    if |b| >= 3 {
      EncodeHasNoBreaks(b[3..]);
      FourDigits(b);
      Unbroken4(Encode(b));
      assert Encode(b)[4..] == Encode(b[3..]);
    } else if b != [] {
      FourDigits(b);
      Unbroken4(Encode(b));
      assert Encode(b)[4..] == [];
    }
  }

  lemma FourDigits(b: seq<byte>)
    requires b != []
    ensures |Encode(b)| >= 4 && forall k :: 0 <= k < 4 ==> Encode(b)[k] != '\r' && Encode(b)[k] != '\n'
  {
  }

  lemma Unbroken(s: string)
    requires s != [] && s[0] != '\r' && s[0] != '\n'
    ensures WithoutBreaks(s) == [s[0]] + WithoutBreaks(s[1..])
  {
  }

  lemma Unbroken4(s: string)
    requires |s| >= 4 && forall k :: 0 <= k < 4 ==> s[k] != '\r' && s[k] != '\n'
    ensures WithoutBreaks(s) == s[..4] + WithoutBreaks(s[4..])
  {
    var t := WithoutBreaks(s[4..]);
    Unbroken(s);
    Unbroken(s[1..]);
    Unbroken(s[2..]);
    Unbroken(s[3..]);
    assert s[1..][1..] == s[2..] && s[2..][1..] == s[3..] && s[3..][1..] == s[4..];
    hide WithoutBreaks;
    assert [s[0]] + ([s[1]] + ([s[2]] + ([s[3]] + t))) == s[..4] + t;
  }

  /** Splitting three bytes into four digits loses nothing. */
  lemma BytesOfDigits(x: byte, y: byte, z: byte)
    ensures First(Digit0(x), Digit1(x, y)) == x && Second(Digit1(x, y), Digit2(y, z)) == y
              && Third(Digit2(y, z), Digit3(z)) == z
  {
  }

  lemma {:induction false} GroupsDecodeEncode(b: seq<byte>)
    ensures DecodeGroups(Encode(b)) == Some(b)
  {
    hide Digit, Value, First, Second, Third, Digit0, Digit1, Digit2, Digit3;
    if |b| == 1 {
      ValueOfDigit(Digit0(b[0]));
      ValueOfDigit(Digit1(b[0], 0));
      BytesOfDigits(b[0], 0, 0);
      assert b == [b[0]];
    } else if |b| == 2 {
      ValueOfDigit(Digit0(b[0]));
      ValueOfDigit(Digit1(b[0], b[1]));
      ValueOfDigit(Digit2(b[1], 0));
      BytesOfDigits(b[0], b[1], 0);
      assert b == [b[0], b[1]];
    } else if |b| >= 3 {
      GroupsDecodeEncode(b[3..]);
      ValueOfDigit(Digit0(b[0]));
      ValueOfDigit(Digit1(b[0], b[1]));
      ValueOfDigit(Digit2(b[1], b[2]));
      ValueOfDigit(Digit3(b[2]));
      BytesOfDigits(b[0], b[1], b[2]);
      DecodeFour(Digit(Digit0(b[0])), Digit(Digit1(b[0], b[1])), Digit(Digit2(b[1], b[2])), Digit(Digit3(b[2])),
          Encode(b[3..]), b[3..]);
      assert b == [b[0], b[1], b[2]] + b[3..];
    }
  }

  lemma DecodeFour(c0: char, c1: char, c2: char, c3: char, s: string, rest: seq<byte>)
    requires Value(c0) >= 0 && Value(c1) >= 0 && Value(c2) >= 0 && Value(c3) >= 0 && c2 != '=' && c3 != '='
    requires DecodeGroups(s) == Some(rest)
    ensures DecodeGroups([c0, c1, c2, c3] + s) ==
            Some([First(Value(c0), Value(c1)), Second(Value(c1), Value(c2)), Third(Value(c2), Value(c3))] + rest)
  {
    hide Value, First, Second, Third;
    assert ([c0, c1, c2, c3] + s)[4..] == s;
  }

  /** Decoding undoes encoding, for every byte sequence. */
  lemma DecodeUndoesEncode(b: seq<byte>)
    ensures Decode(Encode(b)) == Some(b)
  {
    EncodeHasNoBreaks(b);
    GroupsDecodeEncode(b);
  }

  /** Line breaks are dropped wherever they stand, and nothing else is. */
  lemma {:induction false} BreaksMean(a: string, b: string)
    ensures WithoutBreaks(a + b) == WithoutBreaks(a) + WithoutBreaks(b)
    ensures WithoutBreaks("\r") == "" && WithoutBreaks("\n") == ""
    ensures |a| == 1 && a != "\r" && a != "\n" ==> WithoutBreaks(a) == a
    decreases |a|
  {
    if a == [] {
      assert a + b == b;
    } else {
      assert (a + b)[0] == a[0] && (a + b)[1..] == a[1..] + b;
      BreaksMean(a[1..], b);
    }
    assert "\r"[1..] == "" && "\n"[1..] == "";
    assert |a| == 1 ==> a[1..] == "" && a == [a[0]] && "\r" == ['\r'] && "\n" == ['\n'];
  }

  /** Groups of four digits, of which only the last may have one or two padding characters at its end. */
  predicate Grouped(s: string, pad: nat) {
    && pad <= 2 && |s| % 4 == 0 && pad <= |s|
    && (forall i :: 0 <= i < |s| - pad ==> Value(s[i]) >= 0)
    && (forall i :: |s| - pad <= i < |s| ==> s[i] == '=')
  }

  /** A text decodes if and only if it is that, line breaks aside. */
  lemma DecodesIff(s: string)
    ensures Decode(s).Some? <==> exists pad :: Grouped(WithoutBreaks(s), pad)
  {
    hide Grouped, DecodeGroups, WithoutBreaks;
    GroupsDecodeIff(WithoutBreaks(s));
    assert Decode(s) == DecodeGroups(WithoutBreaks(s));
    if pad :| Grouped(WithoutBreaks(s), pad) {
      assert DecodeGroups(WithoutBreaks(s)).Some?;
    }
  }

  lemma {:induction false} GroupsDecodeIff(s: string)
    ensures DecodeGroups(s).Some? <==> exists pad :: Grouped(s, pad)
    decreases |s|
  {
    if |s| < 4 {
      FewChars(s);
    } else if |s| == 4 {
      OneGroup(s);
    } else {
      GroupsDecodeIff(s[4..]);
      FirstGroup(s);
      hide DecodeGroups, Grouped, Value;
      forall pad: nat
        ensures Grouped(s, pad) <==> Grouped(s[4..], pad) && forall i :: 0 <= i < 4 ==> Value(s[i]) >= 0
      {
        LaterGroups(s, pad);
      }
      if pad :| Grouped(s[4..], pad) {
        assert (forall i :: 0 <= i < 4 ==> Value(s[i]) >= 0) ==> Grouped(s, pad);
      }
    }
  }

  lemma FewChars(s: string)
    requires |s| < 4
    ensures DecodeGroups(s).Some? <==> exists pad :: Grouped(s, pad)
  {
    if s == [] {
      assert Grouped(s, 0);
    }
  }

  lemma FirstGroup(s: string)
    requires |s| > 4
    ensures DecodeGroups(s).Some? <==>
            DecodeGroups(s[4..]).Some? && Value(s[0]) >= 0 && Value(s[1]) >= 0 && Value(s[2]) >= 0 && Value(s[3]) >= 0
  {
    hide Value, First, Second, Third;
    NotDigits();
  }

  lemma NotDigits()
    ensures Value('=') < 0
  {
  }

  lemma OneGroup(s: string)
    requires |s| == 4
    ensures DecodeGroups(s).Some? <==> exists pad :: Grouped(s, pad)
  {
    hide Value;
    NotDigits();
    assert s[4..] == [];
    if DecodeGroups(s).Some? {
      assert Grouped(s, if s[2] == '=' then 2 else if s[3] == '=' then 1 else 0);
    }
  }

  lemma LaterGroups(s: string, pad: nat)
    requires |s| > 4
    ensures Grouped(s, pad) <==> Grouped(s[4..], pad) && forall i :: 0 <= i < 4 ==> Value(s[i]) >= 0
  {
    hide Value;
    var t := s[4..];
    assert forall i :: 0 <= i < |t| ==> t[i] == s[i + 4];
    if Grouped(t, pad) && forall i :: 0 <= i < 4 ==> Value(s[i]) >= 0 {
      forall i | 4 <= i < |s|
        ensures s[i] == t[i - 4]
      {
      }
    }
  }

  lemma EncodeIsInjective(a: seq<byte>, b: seq<byte>)
    requires Encode(a) == Encode(b)
    ensures a == b
  {
    DecodeUndoesEncode(a);
    DecodeUndoesEncode(b);
  }

  predicate OccursAt(s: string, t: string, i: nat) {
    i <= |s| && t <= s[i..]
  }

  predicate Contains(s: string, t: string) {
    exists i | 0 <= i <= |s| :: OccursAt(s, t, i)
  }

  predicate Aes128(cipher: string) {
    Contains(cipher, "aes-128-gcm")
  }

  predicate Key32(cipher: string) {
    Contains(cipher, "aes-256-gcm") || Contains(cipher, "chacha20-poly1305")
  }

  /** A hash with 32-byte sums; SHA-256 is one. */
  ghost predicate IsDigest(sum: string -> seq<byte>) {
    forall s :: |sum(s)| == 32
  }

  predicate IsKeyFor(bytes: seq<byte>, cipher: string) {
    (Aes128(cipher) && |bytes| == 16) || (Key32(cipher) && |bytes| == 32)
  }

  function EnsureBase64Password(password: string, cipher: string, sum: string -> seq<byte>): (r: string)
    requires IsDigest(sum)
    ensures Aes128(cipher) || Key32(cipher) ==> Decode(r).Some? && IsKeyFor(Decode(r).value, cipher)
    ensures r == password || Decode(r).Some?
  {
    var decoded := Decode(password);
    if decoded.Some? && IsKeyFor(decoded.value, cipher) then password
    else
      var key := if Aes128(cipher) then sum(password)[..16] else sum(password)[..32];
      DecodeUndoesEncode(key);
      Encode(key)
  }

  /** The digits are the alphabet of section 4 of RFC 4648: A to Z, a to z, 0 to 9, plus and slash. */
  lemma DigitMeans(n: int)
    ensures Digit(0) == 'A' && Digit(25) == 'Z' && Digit(26) == 'a' && Digit(51) == 'z'
    ensures Digit(52) == '0' && Digit(61) == '9' && Digit(62) == '+' && Digit(63) == '/'
    ensures 0 <= n < 61 && n != 25 && n != 51 ==> Digit(n + 1) as int == Digit(n) as int + 1
  {
  }

  /** Three bytes are their 24 bits read as four numbers below 64, the first byte first. */
  lemma BitsMean(x: byte, y: byte, z: byte)
    ensures x as int * 65536 + y as int * 256 + z as int ==
            Digit0(x) * 262144 + Digit1(x, y) * 4096 + Digit2(y, z) * 64 + Digit3(z)
  {
  }

  /** And are written as their digits; two bytes or one at the end are padded with zero bits, then with '='. */
  lemma GroupMeans(x: byte, y: byte, z: byte)
    ensures Encode([x, y, z]) == [Digit(Digit0(x)), Digit(Digit1(x, y)), Digit(Digit2(y, z)), Digit(Digit3(z))]
    ensures Encode([x, y]) == [Digit(Digit0(x)), Digit(Digit1(x, y)), Digit(Digit2(y, 0)), '=']
    ensures Encode([x]) == [Digit(Digit0(x)), Digit(Digit1(x, 0)), '=', '=']
  {
    hide Digit, Digit0, Digit1, Digit2, Digit3;
    assert [x, y, z][3..] == [];
  }

  /** Which key a password stands for: one that decodes to as many bytes as the method's key is kept, and any
      other is replaced by the first 16 bytes of its hash or by the whole of it. */
  lemma KeyMeans(password: string, cipher: string, sum: string -> seq<byte>)
    requires IsDigest(sum)
    ensures var own, r := Decode(password), EnsureBase64Password(password, cipher, sum);
            if own.Some? && ((|own.value| == 16 && Contains(cipher, "aes-128-gcm"))
                             || (|own.value| == 32 && (Contains(cipher, "aes-256-gcm")
                                                       || Contains(cipher, "chacha20-poly1305"))))
            then r == password
            else Decode(r) == Some(if Contains(cipher, "aes-128-gcm") then sum(password)[..16] else sum(password))
  {
    hide Decode, Encode, Contains;
    DecodeUndoesEncode(sum(password)[..16]);
    DecodeUndoesEncode(sum(password)[..32]);
    assert sum(password)[..32] == sum(password);
  }

  /** A text with a character that another lacks does not occur in it. */
  lemma NotWithin(s: string, t: string, k: nat)
    requires k < |t| && t[k] !in s
    ensures !Contains(s, t)
  {
    forall i | 0 <= i <= |s|
      ensures !OccursAt(s, t, i)
    {
      assert i + k < |s| ==> s[i..][k] == s[i + k] && s[i + k] in s;
    }
  }

  /** The first method takes 16-byte keys and no others, the other two 32-byte keys and no others. */
  lemma KeyLengths(bytes: seq<byte>)
    ensures IsKeyFor(bytes, "2022-blake3-aes-128-gcm") <==> |bytes| == 16
    ensures IsKeyFor(bytes, "2022-blake3-aes-256-gcm") <==> |bytes| == 32
    ensures IsKeyFor(bytes, "2022-blake3-chacha20-poly1305") <==> |bytes| == 32
  {
    hide Contains;
    KnownMethods();
    NotAes256();
    NotChacha();
    NotAes128();
    NorAes128();
    assert "2022-blake3-" + "aes-128-gcm" == "2022-blake3-aes-128-gcm";
    assert "2022-blake3-" + "aes-256-gcm" == "2022-blake3-aes-256-gcm";
    assert "2022-blake3-" + "chacha20-poly1305" == "2022-blake3-chacha20-poly1305";
  }

  lemma NotAes256()
    ensures !Contains("2022-blake3-aes-128-gcm", "aes-256-gcm")
  {
    NotWithin("2022-blake3-aes-128-gcm", "aes-256-gcm", 5);
  }

  lemma NotChacha()
    ensures !Contains("2022-blake3-aes-128-gcm", "chacha20-poly1305")
  {
    NotWithin("2022-blake3-aes-128-gcm", "chacha20-poly1305", 1);
  }

  lemma NotAes128()
    ensures !Contains("2022-blake3-aes-256-gcm", "aes-128-gcm")
  {
    NotWithin("2022-blake3-aes-256-gcm", "aes-128-gcm", 4);
  }

  lemma NorAes128()
    ensures !Contains("2022-blake3-chacha20-poly1305", "aes-128-gcm")
  {
    NotWithin("2022-blake3-chacha20-poly1305", "aes-128-gcm", 8);
  }

  /** Normalising twice is normalising once exactly when the method names a key length the function knows,
      or the hash happens to be a fixed point: for a method it does not know every application hashes
      again. */
  lemma NormalisingIsIdempotentIff(password: string, cipher: string, sum: string -> seq<byte>)
    requires IsDigest(sum)
    ensures var once := EnsureBase64Password(password, cipher, sum);
            EnsureBase64Password(once, cipher, sum) == once <==>
                Aes128(cipher) || Key32(cipher) || sum(Encode(sum(password))) == sum(password)
  {
    var once := EnsureBase64Password(password, cipher, sum);
    if !Aes128(cipher) && !Key32(cipher) {
      assert sum(password)[..32] == sum(password);
      assert sum(once)[..32] == sum(once);
      assert once == Encode(sum(password));
      if Encode(sum(once)) == once {
        EncodeIsInjective(sum(once), sum(password));
      }
    }
  }

  /** The three methods of the Shadowsocks 2022 edition are known. */
  lemma KnownMethods()
    ensures Aes128("2022-blake3-" + "aes-128-gcm")
    ensures Key32("2022-blake3-" + "aes-256-gcm")
    ensures Key32("2022-blake3-" + "chacha20-poly1305")
  {
    Ends("2022-blake3-", "aes-128-gcm");
    Ends("2022-blake3-", "aes-256-gcm");
    Ends("2022-blake3-", "chacha20-poly1305");
  }

  lemma Ends(s: string, t: string)
    ensures Contains(s + t, t)
  {
    assert (s + t)[|s|..] == t;
    assert OccursAt(s + t, t, |s|);
  }
}
