/** UTF-8 conversion, character by character and string by string. */
module Utf8 {
  import opened Bytes
  import opened Wrappers

  /** What decoding the front of a string comes to. */
  datatype Decoded = Bad | Short | Char(cp: nat, used: nat)

  /** The length a lead byte announces, or 0. */
  function Utf8Len(c: Byte): (n: nat) {
    if c < 0x80 then 1 else if c / 0x20 == 6 then 2 else if c / 0x10 == 14 then 3 else if c / 8 == 30 then 4 else 0
  }

  /** The bits of the lead byte that belong to the code point. */
  function LeadBits(c: Byte, n: nat): (r: nat) {
    (if n == 2 then c % 0x20 else if n == 3 then c % 0x10 else c % 8) as nat
  }

  predicate IsTail(b: Byte) { b / 0x40 == 2 }

  /** Code point bits gathered from `i` on, or none if a byte is no tail. */
  function Gather(s: seq<Byte>, cp: nat, i: nat, n: nat): (r: Option<nat>)
    requires i <= n <= |s|
    decreases n - i
  {
    if i == n then Some(cp) else if !IsTail(s[i]) then None else Gather(s, cp * 64 + (s[i] % 0x40) as nat, i + 1, n)
  }

  /** Longer than needed, or beyond the last code point. */
  predicate Overlong(cp: nat, n: nat) {
    (n == 2 && cp < 0x80) || (n == 3 && cp < 0x800) || (n == 4 && (cp < 0x1_0000 || cp > 0x10_FFFF))
  }

  function Decode(s: seq<Byte>): (r: Decoded)
    requires s != []
    ensures r.Char? ==> 1 <= r.used <= |s|
  {
    var n := Utf8Len(s[0]);
    if n == 0 then Bad
    else if |s| < n then Short
    else if n == 1 then Char(s[0] as nat, 1)
    else
      var cp := Gather(s, LeadBits(s[0], n), 1, n);
      if cp.None? || Overlong(cp.value, n) then Bad else Char(cp.value, n)
  }

  predicate Surrogate(cp: nat) { 0xD800 <= cp <= 0xDFFF }

  function Tail(x: nat): (b: Byte) { (0x80 + x % 64) as Byte }

  function Encode(cp: nat): (r: Option<seq<Byte>>) {
    if cp < 0x80 then Some([cp as Byte])
    else if cp < 0x800 then Some([(0xC0 + cp / 64) as Byte, Tail(cp)])
    else if Surrogate(cp) then None
    else if cp < 0x1_0000 then Some([(0xE0 + cp / 4096) as Byte, Tail(cp / 64), Tail(cp)])
    else if cp <= 0x10_FFFF then Some([(0xF0 + cp / 262144) as Byte, Tail(cp / 4096), Tail(cp / 64), Tail(cp)])
    else None
  }

  /** The loop of the decoder. */
  method DecodeLoop(s: seq<Byte>) returns (r: Decoded)
    requires s != []
    ensures r == Decode(s)
  {
    var n := Utf8Len(s[0]);
    if n == 0 { return Bad; }
    if |s| < n { return Short; }
    if n == 1 { return Char(s[0] as nat, 1); }
    var cp: nat, i: nat := LeadBits(s[0], n), 1;
    while i < n
      invariant 1 <= i <= n && Gather(s, LeadBits(s[0], n), 1, n) == Gather(s, cp, i, n)
    {
      if !IsTail(s[i]) { return Bad; }
      cp := cp * 64 + (s[i] % 0x40) as nat;
      i := i + 1;
    }
    if Overlong(cp, n) { return Bad; }
    return Char(cp, n);
  }

  // ---- one character ------------------------------------------------------------------------------

  /** Exactly the Unicode scalar values have an encoding. */
  lemma EncodeTotal(cp: nat)
    ensures Encode(cp).Some? <==> cp <= 0x10_FFFF && !Surrogate(cp)
  {
  }

  lemma DecodeTwo(s: seq<Byte>, a: nat, b: nat)
    requires |s| >= 2 && a < 32 && b < 64 && s[0] as nat == 0xC0 + a && s[1] as nat == 0x80 + b
    ensures Decode(s) == if a * 64 + b < 0x80 then Bad else Char(a * 64 + b, 2)
  {
    assert Utf8Len(s[0]) == 2 && LeadBits(s[0], 2) == a && IsTail(s[1]) && (s[1] % 0x40) as nat == b;
    assert Gather(s, a, 1, 2) == Some(a * 64 + b);
  }

  lemma DecodeThree(s: seq<Byte>, a: nat, b: nat, c: nat)
    requires |s| >= 3 && a < 16 && b < 64 && c < 64
    requires s[0] as nat == 0xE0 + a && s[1] as nat == 0x80 + b && s[2] as nat == 0x80 + c
    ensures var cp := (a * 64 + b) * 64 + c;
            Decode(s) == if cp < 0x800 then Bad else Char(cp, 3)
  {
    assert Utf8Len(s[0]) == 3 && LeadBits(s[0], 3) == a && IsTail(s[1]) && (s[1] % 0x40) as nat == b;
    assert IsTail(s[2]) && (s[2] % 0x40) as nat == c;
    assert Gather(s, a * 64 + b, 2, 3) == Some((a * 64 + b) * 64 + c);
    assert Gather(s, a, 1, 3) == Gather(s, a * 64 + b, 2, 3);
  }

  lemma DecodeFour(s: seq<Byte>, a: nat, b: nat, c: nat, d: nat)
    requires |s| >= 4 && a < 8 && b < 64 && c < 64 && d < 64
    requires s[0] as nat == 0xF0 + a && s[1] as nat == 0x80 + b && s[2] as nat == 0x80 + c && s[3] as nat == 0x80 + d
    ensures var cp := ((a * 64 + b) * 64 + c) * 64 + d;
            Decode(s) == if cp < 0x1_0000 || cp > 0x10_FFFF then Bad else Char(cp, 4)
  {
    assert Utf8Len(s[0]) == 4 && LeadBits(s[0], 4) == a && IsTail(s[1]) && (s[1] % 0x40) as nat == b;
    assert IsTail(s[2]) && (s[2] % 0x40) as nat == c && IsTail(s[3]) && (s[3] % 0x40) as nat == d;
    assert Gather(s, (a * 64 + b) * 64 + c, 3, 4) == Some(((a * 64 + b) * 64 + c) * 64 + d);
    assert Gather(s, a * 64 + b, 2, 4) == Gather(s, (a * 64 + b) * 64 + c, 3, 4);
    assert Gather(s, a, 1, 4) == Gather(s, a * 64 + b, 2, 4);
  }

  /** The bits of a code point, six at a time. */
  lemma Recompose(cp: nat)
    ensures cp / 64 * 64 + cp % 64 == cp
    ensures (cp / 4096 * 64 + cp / 64 % 64) * 64 + cp % 64 == cp
    ensures ((cp / 262144 * 64 + cp / 4096 % 64) * 64 + cp / 64 % 64) * 64 + cp % 64 == cp
  {
    assert cp / 64 / 64 == cp / 4096 && cp / 4096 / 64 == cp / 262144;
  }

  /** Decoding the encoding of a character, whatever follows it. */
  lemma DecodeEncoded(cp: nat, rest: seq<Byte>)
    requires Encode(cp).Some?
    ensures Decode(Encode(cp).value + rest) == Char(cp, |Encode(cp).value|)
  {
    hide Decode;
    var s := Encode(cp).value + rest;
    Recompose(cp);
    if cp < 0x80 {
      DecodeOne(s);
    } else if cp < 0x800 {
      DecodeTwo(s, cp / 64, cp % 64);
    } else if cp < 0x1_0000 {
      DecodeThree(s, cp / 4096, cp / 64 % 64, cp % 64);
    } else {
      DecodeFour(s, cp / 262144, cp / 4096 % 64, cp / 64 % 64, cp % 64);
    }
  }

  lemma DecodeOne(s: seq<Byte>)
    requires s != [] && s[0] < 0x80
    ensures Decode(s) == Char(s[0] as nat, 1)
  {
  }

  /** What a decoded character says about the bytes: they are its encoding,
      unless it is a surrogate, which the decoder accepts and the encoder
      refuses. */
  lemma EncodeDecoded(s: seq<Byte>)
    requires s != [] && Decode(s).Char?
    ensures Encode(Decode(s).cp) == if Surrogate(Decode(s).cp) then None else Some(s[..Decode(s).used])
  {
    var n := Utf8Len(s[0]);
    if n == 2 {
      EncodeTwo(s);
    } else if n == 3 {
      EncodeThree(s);
    } else if n == 4 {
      EncodeFour(s);
    } else {
      assert s[..1] == [s[0]];
    }
  }

  lemma EncodeTwo(s: seq<Byte>)
    requires s != [] && Decode(s).Char? && Utf8Len(s[0]) == 2
    ensures Encode(Decode(s).cp) == Some(s[..2])
  {
    var a, b := s[0] as nat - 0xC0, s[1] as nat - 0x80;
    assert IsTail(s[1]);
    DecodeTwo(s, a, b);
    assert Tail(a * 64 + b) == s[1];
    assert s[..2] == [s[0], s[1]];
  }

  lemma EncodeThree(s: seq<Byte>)
    requires s != [] && Decode(s).Char? && Utf8Len(s[0]) == 3
    ensures Encode(Decode(s).cp) == if Surrogate(Decode(s).cp) then None else Some(s[..3])
  {
    var a, b, c := s[0] as nat - 0xE0, s[1] as nat - 0x80, s[2] as nat - 0x80;
    assert IsTail(s[1]);
    var lead := LeadBits(s[0], 3);
    assert IsTail(s[2]) by { assert Gather(s, lead, 1, 3) == Gather(s, lead * 64 + (s[1] % 0x40) as nat, 2, 3); }
    DecodeThree(s, a, b, c);
    var cp := (a * 64 + b) * 64 + c;
    assert cp / 64 == a * 64 + b && cp / 4096 == a;
    assert Tail(cp) == s[2] && Tail(cp / 64) == s[1];
    assert s[..3] == [s[0], s[1], s[2]];
  }

  lemma EncodeFour(s: seq<Byte>)
    requires s != [] && Decode(s).Char? && Utf8Len(s[0]) == 4
    ensures Encode(Decode(s).cp) == Some(s[..4])
  {
    var a, b, c, d := s[0] as nat - 0xF0, s[1] as nat - 0x80, s[2] as nat - 0x80, s[3] as nat - 0x80;
    FourTails(s);
    DecodeFour(s, a, b, c, d);
    var cp := ((a * 64 + b) * 64 + c) * 64 + d;
    assert cp / 64 == (a * 64 + b) * 64 + c && cp / 4096 == a * 64 + b && cp / 262144 == a;
    assert Tail(cp) == s[3] && Tail(cp / 64) == s[2] && Tail(cp / 4096) == s[1];
    assert s[..4] == [s[0], s[1], s[2], s[3]];
  }

  lemma FourTails(s: seq<Byte>)
    requires s != [] && Decode(s).Char? && Utf8Len(s[0]) == 4
    ensures IsTail(s[1]) && IsTail(s[2]) && IsTail(s[3])
  {
    var a := LeadBits(s[0], 4);
    assert IsTail(s[1]);
    var b := a * 64 + (s[1] % 0x40) as nat;
    assert Gather(s, a, 1, 4) == Gather(s, b, 2, 4);
    assert IsTail(s[2]);
    assert Gather(s, b, 2, 4) == Gather(s, b * 64 + (s[2] % 0x40) as nat, 3, 4);
  }

  /** More bytes are asked for exactly if the lead byte announces more than there
      are, whatever those that are there. */
  lemma ShortExactly(s: seq<Byte>)
    requires s != []
    ensures Decode(s).Short? <==>
              || (0xC0 <= s[0] < 0xE0 && |s| < 2) || (0xE0 <= s[0] < 0xF0 && |s| < 3)
              || (0xF0 <= s[0] < 0xF8 && |s| < 4)
  {
  }

  // ---- the standard -------------------------------------------------------------------------------

  predicate In(b: Byte, lo: Byte, hi: Byte) { lo <= b <= hi }

  /** The length of the UTF8-char at the front, by the grammar of section 4 of
      RFC 3629, or 0. */
  function RfcLen(s: seq<Byte>): (n: nat)
    requires s != []
  {
    var tails := (k: nat) => k <= |s| && forall i | 2 <= i < k :: In(s[i], 0x80, 0xBF);
    if s[0] <= 0x7F then 1
    else if |s| < 2 then 0
    else if In(s[0], 0xC2, 0xDF) && In(s[1], 0x80, 0xBF) then 2
    else if ((s[0] == 0xE0 && In(s[1], 0xA0, 0xBF)) || (In(s[0], 0xE1, 0xEC) && In(s[1], 0x80, 0xBF))
             || (s[0] == 0xED && In(s[1], 0x80, 0x9F)) || (In(s[0], 0xEE, 0xEF) && In(s[1], 0x80, 0xBF)))
            && tails(3) then 3
    else if ((s[0] == 0xF0 && In(s[1], 0x90, 0xBF)) || (In(s[0], 0xF1, 0xF3) && In(s[1], 0x80, 0xBF))
             || (s[0] == 0xF4 && In(s[1], 0x80, 0x8F))) && tails(4) then 4
    else 0
  }

  /** The decoder accepts what the standard does, and surrogates besides. */
  lemma DecodeIsRfc(s: seq<Byte>)
    requires s != []
    ensures RfcLen(s) == if Decode(s).Char? && !Surrogate(Decode(s).cp) then Decode(s).used else 0
  {
    var n := Utf8Len(s[0]);
    if n == 2 && |s| >= 2 && IsTail(s[1]) {
      DecodeTwo(s, s[0] as nat - 0xC0, s[1] as nat - 0x80);
    } else if n == 3 && |s| >= 3 {
      RfcThree(s);
    } else if n == 4 && |s| >= 4 {
      RfcFour(s);
    }
  }

  lemma RfcThree(s: seq<Byte>)
    requires |s| >= 3 && Utf8Len(s[0]) == 3
    ensures RfcLen(s) == if Decode(s).Char? && !Surrogate(Decode(s).cp) then Decode(s).used else 0
  {
    if IsTail(s[1]) && IsTail(s[2]) {
      DecodeThree(s, s[0] as nat - 0xE0, s[1] as nat - 0x80, s[2] as nat - 0x80);
    } else if IsTail(s[1]) {
      assert Gather(s, LeadBits(s[0], 3), 1, 3) == Gather(s, LeadBits(s[0], 3) * 64 + (s[1] % 0x40) as nat, 2, 3);
    }
  }

  lemma RfcFour(s: seq<Byte>)
    requires |s| >= 4 && Utf8Len(s[0]) == 4
    ensures RfcLen(s) == if Decode(s).Char? && !Surrogate(Decode(s).cp) then Decode(s).used else 0
  {
    hide Decode, RfcLen, Utf8Len;
    RfcLenFour(s);
    if IsTail(s[1]) && IsTail(s[2]) && IsTail(s[3]) {
      LeadFour(s[0]);
      DecodeFour(s, s[0] as nat - 0xF0, s[1] as nat - 0x80, s[2] as nat - 0x80, s[3] as nat - 0x80);
    } else if Decode(s).Char? {
      FourTails(s);
    }
  }

  lemma LeadFour(c: Byte)
    requires Utf8Len(c) == 4
    ensures 0xF0 <= c <= 0xF7
  {
  }

  lemma RfcLenFour(s: seq<Byte>)
    requires |s| >= 4 && Utf8Len(s[0]) == 4
    ensures RfcLen(s) ==
              if IsTail(s[1]) && IsTail(s[2]) && IsTail(s[3]) && 0xF090 <= s[0] as nat * 256 + s[1] as nat <= 0xF48F
                then 4 else 0
  {
  }

  // ---- strings ------------------------------------------------------------------------------------

  /** `a` in front of a result, if there is one. */
  function Onto<T>(a: seq<T>, o: Option<seq<T>>): (r: Option<seq<T>>) { if o.None? then None else Some(a + o.value) }

  lemma OntoTwice<T>(a: seq<T>, b: seq<T>, o: Option<seq<T>>)
    ensures Onto(a, Onto(b, o)) == Onto(a + b, o) && Onto([], o) == o
  {
    if o.Some? {
      assert a + (b + o.value) == a + b + o.value;
      assert [] + o.value == o.value;
    }
  }

  /** A string decoded until its end or until `len` characters, where a `len`
      of 0 is no limit. */
  function DecodeUpTo(s: seq<Byte>, len: nat, count: nat): (r: Option<seq<nat>>)
    decreases |s|
  {
    if s == [] || (len > 0 && count >= len) then Some([])
    else
      var d := Decode(s);
      if !d.Char? then None else Onto([d.cp], DecodeUpTo(s[d.used..], len, count + 1))
  }

  function DecodeAll(s: seq<Byte>): (r: Option<seq<nat>>) { DecodeUpTo(s, 0, 0) }

  /** A wide string encoded until its end or until the next character would
      exceed `len` bytes. */
  function EncodeUpTo(w: seq<nat>, len: nat, count: nat): (r: Option<seq<Byte>>)
    decreases |w|
  {
    if w == [] then Some([])
    else
      var e := Encode(w[0]);
      if e.None? then None
      else if len > 0 && count + |e.value| > len then Some([])
      else Onto(e.value, EncodeUpTo(w[1..], len, count + |e.value|))
  }

  function EncodeAll(w: seq<nat>): (r: Option<seq<Byte>>) { EncodeUpTo(w, 0, 0) }

  /** The wide characters stored: up to the limit or a bad character, and a
      null after the end of the string if that is reached. */
  function Stored(s: seq<Byte>, len: nat, count: nat): (cells: seq<nat>)
    decreases |s|
  {
    if s == [] then [0]
    else if len > 0 && count >= len then []
    else
      var d := Decode(s);
      if d.Char? then [d.cp] + Stored(s[d.used..], len, count + 1) else []
  }

  /** The whole string was converted. */
  predicate Through(s: seq<Byte>, len: nat, count: nat)
    decreases |s|
  {
    s == [] || (!(len > 0 && count >= len) && Decode(s).Char? && Through(s[Decode(s).used..], len, count + 1))
  }

  /** The bytes stored, likewise. */
  function StoredBytes(w: seq<nat>, len: nat, count: nat): (cells: seq<Byte>)
    decreases |w|
  {
    if w == [] then [0]
    else
      var e := Encode(w[0]);
      if e.None? || (len > 0 && count + |e.value| > len) then []
      else e.value + StoredBytes(w[1..], len, count + |e.value|)
  }

  predicate ThroughWide(w: seq<nat>, len: nat, count: nat)
    decreases |w|
  {
    w == [] || (Encode(w[0]).Some? && !(len > 0 && count + |Encode(w[0]).value| > len)
                && ThroughWide(w[1..], len, count + |Encode(w[0]).value|))
  }

  /** The characters `done` are converted and `s` is left. */
  ghost predicate Decoding(src: seq<Byte>, len: nat, s: seq<Byte>, done: seq<nat>) {
    && DecodeUpTo(src, len, 0) == Onto(done, DecodeUpTo(s, len, |done|))
    && Stored(src, len, 0) == done + Stored(s, len, |done|) && Through(src, len, 0) == Through(s, len, |done|)
  }

  lemma DecodingBegins(src: seq<Byte>, len: nat)
    ensures Decoding(src, len, src, [])
  {
    OntoTwice([], [], DecodeUpTo(src, len, 0));
  }

  lemma DecodingStep(src: seq<Byte>, len: nat, s: seq<Byte>, done: seq<nat>)
    requires Decoding(src, len, s, done) && s != [] && !(len > 0 && |done| >= len) && Decode(s).Char?
    ensures Decoding(src, len, s[Decode(s).used..], done + [Decode(s).cp])
  {
    hide Decode;
    var d, n := Decode(s), |done| + 1;
    var rest := s[d.used..];
    OntoTwice(done, [d.cp], DecodeUpTo(rest, len, n));
    assert Stored(s, len, |done|) == [d.cp] + Stored(rest, len, n);
    assert done + ([d.cp] + Stored(rest, len, n)) == done + [d.cp] + Stored(rest, len, n);
  }

  lemma DecodingStops(src: seq<Byte>, len: nat, s: seq<Byte>, done: seq<nat>)
    requires Decoding(src, len, s, done)
    ensures s == [] ==>
              DecodeUpTo(src, len, 0) == Some(done) && Stored(src, len, 0) == done + [0] && Through(src, len, 0)
    ensures s != [] && len > 0 && |done| >= len ==>
              DecodeUpTo(src, len, 0) == Some(done) && Stored(src, len, 0) == done && !Through(src, len, 0)
    ensures s != [] && !(len > 0 && |done| >= len) && !Decode(s).Char? ==>
              DecodeUpTo(src, len, 0) == None && Stored(src, len, 0) == done && !Through(src, len, 0)
  {
    hide Decode;
    assert done + [] == done;
  }

  /** Convert a byte string; `cells` is what is stored through `dst`, and `ended`
      says that `*src` becomes null. A null `dst` stores nothing. */
  method MbsRToWcs(src: seq<Byte>, len: nat, store: bool) returns (r: Option<nat>, cells: seq<nat>, ended: bool)
    requires 0 !in src
    ensures r == (if DecodeUpTo(src, len, 0).None? then None else Some(|DecodeUpTo(src, len, 0).value|))
    ensures cells == if store then Stored(src, len, 0) else []
    ensures ended == (store && Through(src, len, 0))
  {
    hide Decode, Decoding, DecodeUpTo, Stored, Through;
    var s, count: nat := src, 0;
    ghost var done: seq<nat> := [];
    cells, ended := [], false;
    DecodingBegins(src, len);
    while s != []
      invariant count == |done| && Decoding(src, len, s, done)
      invariant cells == if store then done else []
      decreases |s|
    {
      if len > 0 && count >= len {
        DecodingStops(src, len, s, done);
        return Some(count), cells, false;
      }
      var d := DecodeLoop(s);
      if !d.Char? {
        DecodingStops(src, len, s, done);
        return None, cells, false;
      }
      DecodingStep(src, len, s, done);
      if store { cells := cells + [d.cp]; }
      done := done + [d.cp];
      count := count + 1;
      s := s[d.used..];
    }
    DecodingStops(src, len, s, done);
    if store { cells, ended := cells + [0], true; }
    return Some(count), cells, ended;
  }

  /** The bytes `done` are stored and `w` is left. */
  ghost predicate Encoding(src: seq<nat>, len: nat, w: seq<nat>, done: seq<Byte>) {
    && EncodeUpTo(src, len, 0) == Onto(done, EncodeUpTo(w, len, |done|))
    && StoredBytes(src, len, 0) == done + StoredBytes(w, len, |done|)
    && ThroughWide(src, len, 0) == ThroughWide(w, len, |done|)
  }

  lemma EncodingBegins(src: seq<nat>, len: nat)
    ensures Encoding(src, len, src, [])
  {
    OntoTwice([], [], EncodeUpTo(src, len, 0));
  }

  lemma EncodingStep(src: seq<nat>, len: nat, w: seq<nat>, done: seq<Byte>)
    requires Encoding(src, len, w, done) && w != [] && Encode(w[0]).Some?
    requires !(len > 0 && |done| + |Encode(w[0]).value| > len)
    ensures Encoding(src, len, w[1..], done + Encode(w[0]).value)
  {
    hide Encode;
    var e := Encode(w[0]).value;
    var n := |done| + |e|;
    OntoTwice(done, e, EncodeUpTo(w[1..], len, n));
    assert StoredBytes(w, len, |done|) == e + StoredBytes(w[1..], len, n);
    assert done + (e + StoredBytes(w[1..], len, n)) == done + e + StoredBytes(w[1..], len, n);
  }

  lemma EncodingStops(src: seq<nat>, len: nat, w: seq<nat>, done: seq<Byte>)
    requires Encoding(src, len, w, done)
    ensures w == [] ==>
              && EncodeUpTo(src, len, 0) == Some(done) && StoredBytes(src, len, 0) == done + [0]
              && ThroughWide(src, len, 0)
    ensures w != [] && Encode(w[0]).None? ==>
              EncodeUpTo(src, len, 0) == None && StoredBytes(src, len, 0) == done && !ThroughWide(src, len, 0)
    ensures w != [] && Encode(w[0]).Some? && len > 0 && |done| + |Encode(w[0]).value| > len ==>
              EncodeUpTo(src, len, 0) == Some(done) && StoredBytes(src, len, 0) == done && !ThroughWide(src, len, 0)
  {
    hide Encode;
    assert done + [] == done;
  }

  method WcsRToMbs(src: seq<nat>, len: nat, store: bool) returns (r: Option<nat>, cells: seq<Byte>, ended: bool)
    requires 0 !in src
    ensures r == (if EncodeUpTo(src, len, 0).None? then None else Some(|EncodeUpTo(src, len, 0).value|))
    ensures cells == if store then StoredBytes(src, len, 0) else []
    ensures ended == (store && ThroughWide(src, len, 0))
  {
    hide Encode, Encoding, EncodeUpTo, StoredBytes, ThroughWide;
    var w, count: nat := src, 0;
    ghost var done: seq<Byte> := [];
    cells, ended := [], false;
    EncodingBegins(src, len);
    while w != []
      invariant count == |done| && Encoding(src, len, w, done)
      invariant cells == if store then done else []
      decreases |w|
    {
      var tmp := Encode(w[0]);
      if tmp.None? {
        EncodingStops(src, len, w, done);
        return None, cells, false;
      }
      if len > 0 && count + |tmp.value| > len {
        EncodingStops(src, len, w, done);
        return Some(count), cells, false;
      }
      EncodingStep(src, len, w, done);
      if store { cells := cells + tmp.value; }
      done := done + tmp.value;
      count := count + |tmp.value|;
      w := w[1..];
    }
    EncodingStops(src, len, w, done);
    if store { cells, ended := cells + [0], true; }
    return Some(count), cells, ended;
  }

  // ---- limits -------------------------------------------------------------------------------------

  /** A limit keeps its promise exactly if it is not 0, which is none. */
  lemma DecodeLimit(s: seq<Byte>, len: nat)
    requires DecodeUpTo(s, len, 0).Some?
    ensures |DecodeUpTo(s, len, 0).value| <= len <==> len > 0 || s == []
  {
    if len > 0 { DecodeWithin(s, len, 0); }
  }

  lemma {:induction false} DecodeWithin(s: seq<Byte>, len: nat, count: nat)
    requires DecodeUpTo(s, len, count).Some? && count <= len && 0 < len
    ensures count + |DecodeUpTo(s, len, count).value| <= len
    decreases |s|
  {
    hide Decode;
    if s != [] && count < len { DecodeWithin(s[Decode(s).used..], len, count + 1); }
  }

  lemma EncodeLimit(w: seq<nat>, len: nat)
    requires EncodeUpTo(w, len, 0).Some?
    ensures |EncodeUpTo(w, len, 0).value| <= len <==> len > 0 || w == []
  {
    if len > 0 { EncodeWithin(w, len, 0); }
  }

  lemma {:induction false} EncodeWithin(w: seq<nat>, len: nat, count: nat)
    requires EncodeUpTo(w, len, count).Some? && count <= len && 0 < len
    ensures count + |EncodeUpTo(w, len, count).value| <= len
    decreases |w|
  {
    hide Encode;
    if w != [] && count + |Encode(w[0]).value| <= len { EncodeWithin(w[1..], len, count + |Encode(w[0]).value|); }
  }

  /** A limit cuts off what follows and nothing else. */
  lemma DecodeFirst(s: seq<Byte>, len: nat)
    requires 0 < len && DecodeAll(s).Some?
    ensures DecodeUpTo(s, len, 0) ==
              Some(if |DecodeAll(s).value| <= len then DecodeAll(s).value else DecodeAll(s).value[..len])
  {
    FirstFrom(s, len, 0, 0);
  }

  lemma {:induction false} FirstFrom(s: seq<Byte>, len: nat, count: nat, any: nat)
    requires count <= len && 0 < len && DecodeUpTo(s, 0, any).Some?
    ensures var all := DecodeUpTo(s, 0, any).value;
            DecodeUpTo(s, len, count) == Some(if |all| <= len - count then all else all[..len - count])
    decreases |s|
  {
    hide Decode;
    if s != [] && count < len {
      var d, all := Decode(s), DecodeUpTo(s, 0, any).value;
      FirstFrom(s[d.used..], len, count + 1, any + 1);
      var rest := DecodeUpTo(s[d.used..], 0, any + 1).value;
      assert all == [d.cp] + rest;
      if |all| > len - count { assert all[..len - count] == [d.cp] + rest[..len - count - 1]; }
    }
  }

  /** As many characters are encoded as fit, and no more. */
  lemma EncodeMost(w: seq<nat>, len: nat) returns (k: nat)
    requires 0 < len && EncodeUpTo(w, len, 0).Some?
    ensures k <= |w| && EncodeAll(w[..k]) == EncodeUpTo(w, len, 0)
    ensures k < |w| ==> Encode(w[k]).Some? && len < |EncodeUpTo(w, len, 0).value| + |Encode(w[k]).value|
  {
    k := MostFrom(w, len, 0, 0);
  }

  lemma {:induction false} MostFrom(w: seq<nat>, len: nat, count: nat, any: nat) returns (k: nat)
    requires 0 < len && EncodeUpTo(w, len, count).Some?
    ensures k <= |w| && EncodeUpTo(w[..k], 0, any) == EncodeUpTo(w, len, count)
    ensures k < |w| ==> Encode(w[k]).Some? && len < count + |EncodeUpTo(w, len, count).value| + |Encode(w[k]).value|
    decreases |w|
  {
    hide Encode;
    k := 0;
    if w != [] {
      var e := Encode(w[0]).value;
      if count + |e| <= len {
        k := MostFrom(w[1..], len, count + |e|, any + |e|);
        k := k + 1;
        assert w[..k][1..] == w[1..][..k - 1];
      }
    }
  }

  /** What is stored stays within a limit exactly if the string is not exactly
      as long: then the null goes one place beyond. */
  lemma StoredWithin(s: seq<Byte>, len: nat)
    requires 0 < len
    ensures |Stored(s, len, 0)| <= len <==> !(DecodeAll(s).Some? && |DecodeAll(s).value| == len)
  {
    StoredCount(s, len, 0, 0);
  }

  lemma {:induction false} StoredCount(s: seq<Byte>, len: nat, count: nat, any: nat)
    requires count <= len && 0 < len
    ensures var all := DecodeUpTo(s, 0, any);
            && count + |Stored(s, len, count)| <= len + 1
            && (count + |Stored(s, len, count)| == len + 1 <==> all.Some? && count + |all.value| == len)
    decreases |s|
  {
    hide Decode;
    if s == [] {
      assert DecodeUpTo(s, 0, any) == Some([]);
    } else if Decode(s).Char? {
      var rest := s[Decode(s).used..];
      assert DecodeUpTo(s, 0, any) == Onto([Decode(s).cp], DecodeUpTo(rest, 0, any + 1));
      if count < len { StoredCount(rest, len, count + 1, any + 1); }
    }
  }

  lemma StoredBytesWithin(w: seq<nat>, len: nat)
    requires 0 < len
    ensures |StoredBytes(w, len, 0)| <= len <==> !(EncodeAll(w).Some? && |EncodeAll(w).value| == len)
  {
    StoredBytesCount(w, len, 0, 0);
  }

  lemma {:induction false} StoredBytesCount(w: seq<nat>, len: nat, count: nat, any: nat)
    requires count <= len && 0 < len
    ensures var all := EncodeUpTo(w, 0, any);
            && count + |StoredBytes(w, len, count)| <= len + 1
            && (count + |StoredBytes(w, len, count)| == len + 1 <==> all.Some? && count + |all.value| == len)
    decreases |w|
  {
    hide Encode;
    if w == [] {
      assert EncodeUpTo(w, 0, any) == Some([]);
    } else if Encode(w[0]).Some? {
      var e := Encode(w[0]).value;
      assert EncodeUpTo(w, 0, any) == Onto(e, EncodeUpTo(w[1..], 0, any + |e|));
      if count + |e| <= len { StoredBytesCount(w[1..], len, count + |e|, any + |e|); }
    }
  }

  /** The shortest string that does it. */
  lemma OneTooMany(b: Byte)
    requires 0 < b < 0x80
    ensures Stored([b], 1, 0) == [b as nat, 0]
  {
    DecodeOne([b]);
    assert Stored([b][1..], 1, 1) == [0];
  }

  /** The first surrogate: decoded, and refused by the encoder. */
  lemma SurrogateDecoded()
    ensures Decode([0xED, 0xA0, 0x80]) == Char(0xD800, 3) && Encode(0xD800).None?
  {
    DecodeThree([0xED, 0xA0, 0x80], 13, 32, 0);
  }

  predicate Scalar(cp: nat) { 0 < cp <= 0x10_FFFF && !Surrogate(cp) }

  lemma EncodeNonzero(cp: nat)
    requires Scalar(cp)
    ensures Encode(cp).Some? && 0 !in Encode(cp).value
  {
  }

  /** A string of nonzero scalar values encodes to a byte string without NUL
      that decodes to it. */
  lemma WideRoundTrip(w: seq<nat>)
    requires forall i | 0 <= i < |w| :: Scalar(w[i])
    ensures EncodeAll(w).Some? && 0 !in EncodeAll(w).value && DecodeAll(EncodeAll(w).value) == Some(w)
  {
    DecodeAllEncoded(w, 0, 0);
  }

  /** A byte string that decodes re-encodes to itself exactly when it holds no
      surrogate; otherwise it cannot be encoded at all. */
  lemma ByteRoundTrip(s: seq<Byte>)
    requires DecodeAll(s).Some?
    ensures EncodeAll(DecodeAll(s).value) ==
              if exists i :: 0 <= i < |DecodeAll(s).value| && Surrogate(DecodeAll(s).value[i]) then None else Some(s)
  {
    EncodeAllDecoded(s, 0, 0);
  }

  lemma {:induction false} DecodeAllEncoded(w: seq<nat>, n: nat, m: nat)
    requires forall i | 0 <= i < |w| :: Scalar(w[i])
    ensures EncodeUpTo(w, 0, n).Some? && 0 !in EncodeUpTo(w, 0, n).value
    ensures DecodeUpTo(EncodeUpTo(w, 0, n).value, 0, m) == Some(w)
    decreases |w|
  {
    hide Encode, Decode;
    if w == [] {
      assert EncodeUpTo(w, 0, n).value == [];
    } else {
      EncodeNonzero(w[0]);
      var e := Encode(w[0]).value;
      DecodeAllEncoded(w[1..], n + |e|, m + 1);
      var rest := EncodeUpTo(w[1..], 0, n + |e|).value;
      DecodeEncoded(w[0], rest);
      assert EncodeUpTo(w, 0, n) == Some(e + rest);
      assert e + rest != [] && (e + rest)[|e|..] == rest && [w[0]] + w[1..] == w;
    }
  }

  lemma {:induction false} EncodeAllDecoded(s: seq<Byte>, n: nat, m: nat)
    requires DecodeUpTo(s, 0, n).Some?
    ensures var w := DecodeUpTo(s, 0, n).value;
            EncodeUpTo(w, 0, m) == if exists i :: 0 <= i < |w| && Surrogate(w[i]) then None else Some(s)
    decreases |s|
  {
    hide Encode, Decode;
    if s != [] {
      var d, w := Decode(s), DecodeUpTo(s, 0, n).value;
      EncodeDecoded(s);
      EncodeAllDecoded(s[d.used..], n + 1, m + d.used);
      assert w[1..] == DecodeUpTo(s[d.used..], 0, n + 1).value;
      assert s == s[..d.used] + s[d.used..];
      if Surrogate(w[0]) {
      } else if exists i :: 0 <= i < |w[1..]| && Surrogate(w[1..][i]) {
        var i :| 0 <= i < |w[1..]| && Surrogate(w[1..][i]);
        assert Surrogate(w[i + 1]);
      } else {
        assert forall i | 1 <= i < |w| :: w[i] == w[1..][i - 1];
      }
    }
  }
}
