/** Null-terminated UTF-8 mapping strings: written by scripts/idna_table.py, read by
    src/mapping.cpp. */
module IdnaStrings {
  import opened Basics

  type Octets = seq<Byte>

  // ---------------------------------------------------------------- encode_utf8

  /** `encode_utf8`; `|` and shifts of disjoint bits are sums and quotients. */
  function EncodeUtf8(cp: nat): (s: Octets)
    requires cp < 0x110000
    ensures 1 <= |s| <= 4
  {
    if cp <= 0x7F then [cp]
    else if cp <= 0x7FF then [0xC0 + cp / 64, 0x80 + cp % 64]
    else if cp <= 0xFFFF then [0xE0 + cp / 4096, 0x80 + (cp / 64) % 64, 0x80 + cp % 64]
    else [0xF0 + cp / 262144, 0x80 + (cp / 4096) % 64, 0x80 + (cp / 64) % 64, 0x80 + cp % 64]
  }

  /** Length of the character that starts with byte `b`, as `utf8_next` takes it. */
  function CharBytes(b: Byte): (n: nat)
    ensures 1 <= n <= 4
  {
    if b < 0x80 then 1 else if b < 0xE0 then 2 else if b < 0xF0 then 3 else 4
  }

  /** The character at `p`: masked payload bits, shifted together. */
  function PointAt(s: Octets, p: nat): nat
    requires p < |s| && p + CharBytes(s[p]) <= |s|
  {
    var b := s[p];
    if b < 0x80 then b
    else if b < 0xE0 then Two(b, s[p + 1])
    else if b < 0xF0 then Three(b, s[p + 1], s[p + 2])
    else Four(b, s[p + 1], s[p + 2], s[p + 3])
  }

  function Two(b0: nat, b1: nat): nat {
    Rem(b0, 32) * 64 + Rem(b1, 64)
  }

  function Three(b0: nat, b1: nat, b2: nat): nat {
    Rem(b0, 16) * 4096 + Rem(b1, 64) * 64 + Rem(b2, 64)
  }

  function Four(b0: nat, b1: nat, b2: nat, b3: nat): nat {
    Rem(b0, 8) * 262144 + Rem(b1, 64) * 4096 + Rem(b2, 64) * 64 + Rem(b3, 64)
  }

  /** `s` has the bytes of `e` at `p`. */
  predicate BytesAt(s: Octets, p: nat, e: Octets) {
    p + |e| <= |s| && forall j :: 0 <= j < |e| ==> s[p + j] == e[j]
  }

  /** Reading undoes encoding, wherever the character stands. */
  lemma PointThere(s: Octets, p: nat, cp: nat)
    requires cp < 0x110000 && BytesAt(s, p, EncodeUtf8(cp))
    ensures p < |s| && CharBytes(s[p]) == |EncodeUtf8(cp)| && PointAt(s, p) == cp
    ensures cp != 0 ==> s[p] != 0
  {
    var e := EncodeUtf8(cp);
    assert s[p] == e[0];
    hide Two, Three, Four;
    if cp <= 0x7F {
    } else if cp <= 0x7FF {
      assert s[p + 1] == e[1];
      TwoParts(cp);
    } else if cp <= 0xFFFF {
      assert s[p + 1] == e[1] && s[p + 2] == e[2];
      ThreeParts(cp);
    } else {
      assert s[p + 1] == e[1] && s[p + 2] == e[2] && s[p + 3] == e[3];
      FourParts(cp);
    }
  }

  /** A tag above six or fewer payload bits is masked away. */
  lemma Untagged(tag: nat, v: nat, m: nat)
    requires v < m && tag % m == 0
    ensures Rem(tag + v, m) == v
  {
    assert tag == (tag / m) * m;
    Quotient(v, tag / m, m);
  }

  lemma TwoParts(cp: nat)
    requires 0x7F < cp <= 0x7FF
    ensures 0xC2 <= 0xC0 + cp / 64 < 0xE0 && Two(0xC0 + cp / 64, 0x80 + cp % 64) == cp
  {
    Untagged(0xC0, cp / 64, 32);
    Untagged(0x80, cp % 64, 64);
    hide Rem;
  }

  lemma ThreeParts(cp: nat)
    requires 0x7FF < cp <= 0xFFFF
    ensures 0xE0 <= 0xE0 + cp / 4096 < 0xF0
    ensures Three(0xE0 + cp / 4096, 0x80 + (cp / 64) % 64, 0x80 + cp % 64) == cp
  {
    Untagged(0xE0, cp / 4096, 16);
    Untagged(0x80, (cp / 64) % 64, 64);
    Untagged(0x80, cp % 64, 64);
    hide Rem;
  }

  lemma FourParts(cp: nat)
    requires 0xFFFF < cp < 0x110000
    ensures 0xF0 <= 0xF0 + cp / 262144 < 0xF8
    ensures Four(0xF0 + cp / 262144, 0x80 + (cp / 4096) % 64, 0x80 + (cp / 64) % 64, 0x80 + cp % 64) == cp
  {
    hide Rem;
    var q, r := cp / 64, (cp / 64) / 64;
    assert q < 17408 && r < 272 && r / 64 < 8;
    assert cp / 4096 == r && cp / 262144 == r / 64;
    Untagged(0xF0, r / 64, 8);
    Untagged(0x80, r % 64, 64);
    Untagged(0x80, q % 64, 64);
    Untagged(0x80, cp % 64, 64);
  }

  // ---------------------------------------------------------------- strings

  /** Code points that can stand in a null-terminated string. */
  predicate Writable(cps: Points) {
    forall i :: 0 <= i < |cps| ==> 0 < cps[i] < 0x110000
  }

  function EncodeString(cps: Points): Octets
    requires Writable(cps)
  {
    if cps == [] then [0] else EncodeUtf8(cps[0]) + EncodeString(cps[1..])
  }

  /** The string at `p` is the encoding of `cps` with its terminator. */
  predicate StringAt(s: Octets, p: nat, cps: Points)
    decreases |cps|
  {
    if cps == [] then p < |s| && s[p] == 0
    else
      && 0 < cps[0] < 0x110000 && BytesAt(s, p, EncodeUtf8(cps[0]))
      && StringAt(s, p + |EncodeUtf8(cps[0])|, cps[1..])
  }

  lemma {:induction false} StringAtStays(s: Octets, p: nat, cps: Points, more: Octets)
    requires StringAt(s, p, cps)
    ensures StringAt(s + more, p, cps)
    decreases |cps|
  {
    if cps != [] {
      hide EncodeUtf8;
      StringAtStays(s, p + |EncodeUtf8(cps[0])|, cps[1..], more);
    }
  }

  lemma {:induction false} StringWritten(s: Octets, cps: Points)
    requires Writable(cps)
    ensures StringAt(s + EncodeString(cps), |s|, cps)
    decreases |cps|
  {
    hide EncodeUtf8, BytesAt;
    if cps != [] {
      var e, rest := EncodeUtf8(cps[0]), EncodeString(cps[1..]);
      StringWritten(s + e, cps[1..]);
      Associate(s, e, rest);
      Appended(s, e, rest);
    }
  }

  lemma Appended(s: Octets, e: Octets, rest: Octets)
    ensures BytesAt(s + (e + rest), |s|, e)
  {}

  // ---------------------------------------------------------------- reading

  /** `utf8_next`: the character at `p`, and where the next one starts. */
  method Utf8Next(s: Octets, p: nat) returns (cp: nat, next: nat)
    requires p < |s| && p + CharBytes(s[p]) <= |s|
    ensures cp == PointAt(s, p) && next == p + CharBytes(s[p])
  {
    var b := s[p];
    next := p + 1;
    if b < 0x80 { return b, next; }
    if b < 0xE0 {
      cp := Rem(b, 32) * 64;
      cp := cp + Rem(s[next], 64);
      next := next + 1;
      return;
    }
    if b < 0xF0 {
      cp := Rem(b, 16) * 4096;
      cp := cp + Rem(s[next], 64) * 64;
      next := next + 1;
      cp := cp + Rem(s[next], 64);
      next := next + 1;
      return;
    }
    cp := Rem(b, 8) * 262144;
    cp := cp + Rem(s[next], 64) * 4096;
    next := next + 1;
    cp := cp + Rem(s[next], 64) * 64;
    next := next + 1;
    cp := cp + Rem(s[next], 64);
    next := next + 1;
  }

  /** One step along a string. */
  lemma StringStep(s: Octets, p: nat, cps: Points)
    requires StringAt(s, p, cps)
    ensures p < |s| && (s[p] == 0 <==> cps == [])
    ensures cps != [] ==>
      p + CharBytes(s[p]) <= |s| && PointAt(s, p) == cps[0] && StringAt(s, p + CharBytes(s[p]), cps[1..])
  {
    if cps != [] {
      PointThere(s, p, cps[0]);
      hide EncodeUtf8, PointAt;
    }
  }

  /** `utf8_count_codepoints` */
  method Utf8CountCodepoints(s: Octets, start: nat, ghost cps: Points) returns (n: nat)
    requires StringAt(s, start, cps)
    ensures n == |cps|
  {
    hide EncodeUtf8, PointAt, StringAt;
    n := 0;
    var p: nat := start;
    StringStep(s, p, cps);
    assert cps[0..] == cps;
    while s[p] != 0
      invariant n <= |cps| && p < |s| && StringAt(s, p, cps[n..]) && (s[p] == 0 <==> n == |cps|)
      decreases |cps| - n
    {
      StringStep(s, p, cps[n..]);
      assert cps[n..][1..] == cps[n + 1..];
      n := n + 1;
      p := p + CharBytes(s[p]);
      StringStep(s, p, cps[n..]);
    }
  }
}
