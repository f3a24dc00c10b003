/** Padded standard base64 (section 4 of RFC 4648): what is needed to look for an encoded word at
    the end of a text. */
module Base64 {
  import opened Strings

  type Byte = b: int | 0 <= b < 256

  /** The alphabet of table 1. */
  function Symbol(i: int): char
    requires 0 <= i < 64
  {
    if i < 26 then 'A' + i as char
    else if i < 52 then 'a' + (i - 26) as char
    else if i < 62 then '0' + (i - 52) as char
    else if i == 62 then '+' else '/'
  }

  lemma SymbolDistinct(i: int, j: int)
    requires 0 <= i < 64 && 0 <= j < 64
    ensures Symbol(i) == Symbol(j) ==> i == j
    ensures Symbol(i) != '=' && Symbol(i) != '-'
  {
  }

  /** The four characters of a group of one to three bytes. */
  function Quad(t: seq<Byte>): string {
    var b0 := if |t| > 0 then t[0] else 0;
    var b1 := if |t| > 1 then t[1] else 0;
    var b2 := if |t| > 2 then t[2] else 0;
    [ Symbol(b0 / 4),
      Symbol(b0 % 4 * 16 + b1 / 16),
      if |t| > 1 then Symbol(b1 % 16 * 4 + b2 / 64) else '=',
      if |t| > 2 then Symbol(b2 % 64) else '=' ]
  }

  function FirstGroup(n: nat): nat { if n < 3 then n else 3 }

  /** A text cut into groups of three, each written by `quad`, the last one possibly short. */
  function ByGroups<T>(quad: seq<T> -> string, t: seq<T>): string {
    if t == [] then [] else quad(t[..FirstGroup(|t|)]) + ByGroups(quad, t[FirstGroup(|t|)..])
  }

  function Encode(t: seq<Byte>): string { ByGroups(Quad, t) }

  /** Two sextets and a half overlap as in figure 1: equal ones come from equal bytes. */
  lemma SextetsInjective(a0: Byte, a1: Byte, a2: Byte, b0: Byte, b1: Byte, b2: Byte)
    requires a0 / 4 == b0 / 4 && a2 % 64 == b2 % 64
    requires a0 % 4 * 16 + a1 / 16 == b0 % 4 * 16 + b1 / 16
    requires a1 % 16 * 4 + a2 / 64 == b1 % 16 * 4 + b2 / 64
    ensures a0 == b0 && a1 == b1 && a2 == b2
  {
  }

  function ByteAt(t: seq<Byte>, i: nat): Byte { if i < |t| then t[i] else 0 }

  /** Padding tells short groups apart. */
  lemma QuadLength(s: seq<Byte>, t: seq<Byte>)
    requires 1 <= |s| <= 3 && 1 <= |t| <= 3 && Quad(s) == Quad(t)
    ensures |s| == |t|
  {
    assert Quad(s)[2] == Quad(t)[2] && Quad(s)[3] == Quad(t)[3];
  }

  /** Equal groups of characters stand for equal sextets; padding stands for zero. */
  lemma QuadSextets(s: seq<Byte>, t: seq<Byte>)
    requires 1 <= |s| == |t| <= 3 && Quad(s) == Quad(t)
    ensures s[0] / 4 == t[0] / 4
    ensures s[0] % 4 * 16 + ByteAt(s, 1) / 16 == t[0] % 4 * 16 + ByteAt(t, 1) / 16
    ensures ByteAt(s, 1) % 16 * 4 + ByteAt(s, 2) / 64 == ByteAt(t, 1) % 16 * 4 + ByteAt(t, 2) / 64
    ensures ByteAt(s, 2) % 64 == ByteAt(t, 2) % 64
  {
    assert Quad(s)[0] == Quad(t)[0] && Quad(s)[1] == Quad(t)[1];
    assert Quad(s)[2] == Quad(t)[2] && Quad(s)[3] == Quad(t)[3];
    SymbolDistinct(s[0] / 4, t[0] / 4);
    SymbolDistinct(s[0] % 4 * 16 + ByteAt(s, 1) / 16, t[0] % 4 * 16 + ByteAt(t, 1) / 16);
    SymbolDistinct(ByteAt(s, 1) % 16 * 4 + ByteAt(s, 2) / 64, ByteAt(t, 1) % 16 * 4 + ByteAt(t, 2) / 64);
    SymbolDistinct(ByteAt(s, 2) % 64, ByteAt(t, 2) % 64);
  }

  lemma QuadInjective(s: seq<Byte>, t: seq<Byte>)
    requires 1 <= |s| <= 3 && 1 <= |t| <= 3
    ensures Quad(s) == Quad(t) ==> s == t
  {
    if Quad(s) == Quad(t) {
      QuadLength(s, t);
      QuadSextets(s, t);
      SextetsInjective(s[0], ByteAt(s, 1), ByteAt(s, 2), t[0], ByteAt(t, 1), ByteAt(t, 2));
    }
  }

  /** Groups of three bytes, the last one possibly short. */
  function Groups(n: nat): (g: nat)
    ensures 3 * g - 3 < n <= 3 * g || n == g == 0
  {
    if n == 0 then 0 else (n - 1) / 3 + 1
  }

  lemma {:induction false} EncodeLength(t: seq<Byte>)
    ensures |Encode(t)| == 4 * Groups(|t|)
  {
    if t != [] {
      EncodeLength(t[FirstGroup(|t|)..]);
    }
  }

  // ----- the encoding said of its characters -----

  /** Table 1 */
  const ALPHABET := "ABCDEFGHIJKLMNOPQRSTUVWXYZ" + "abcdefghijklmnopqrstuvwxyz" + "0123456789" + "+/"

  lemma SymbolIs(i: nat)
    requires i < 64
    ensures |ALPHABET| == 64 && Symbol(i) == ALPHABET[i]
  {
    if i < 26 {
      assert ALPHABET[i] == "ABCDEFGHIJKLMNOPQRSTUVWXYZ"[i];
    } else if i < 52 {
      assert ALPHABET[i] == "abcdefghijklmnopqrstuvwxyz"[i - 26];
    } else if i < 62 {
      assert ALPHABET[i] == "0123456789"[i - 52];
    } else {
      assert ALPHABET[i] == "+/"[i - 62];
    }
  }

  lemma SextetBits(b0: Byte, b1: Byte, b2: Byte)
    ensures var s1, s2 := b0 % 4 * 16 + b1 / 16, b1 % 16 * 4 + b2 / 64;
            b0 / 4 * 262144 + s1 * 4096 + s2 * 64 + b2 % 64 == b0 * 65536 + b1 * 256 + b2
  {
  }

  /** The i-th four characters write the i-th three bytes, six bits each by the alphabet's positions; a last
      group of two or one is filled up with zero bits and padded. */
  lemma GroupIsWritten(t: seq<Byte>, i: nat) returns (p0: nat, p1: nat, p2: nat, p3: nat)
    requires 3 * i < |t|
    ensures 4 * i + 4 <= |Encode(t)| && |ALPHABET| == 64 && p0 < 64 && p1 < 64 && p2 < 64 && p3 < 64
    ensures Encode(t)[4 * i] == ALPHABET[p0] && Encode(t)[4 * i + 1] == ALPHABET[p1]
    ensures Encode(t)[4 * i + 2] == if |t| - 3 * i > 1 then ALPHABET[p2] else '='
    ensures Encode(t)[4 * i + 3] == if |t| - 3 * i > 2 then ALPHABET[p3] else '='
    ensures p0 * 262144 + p1 * 4096 + p2 * 64 + p3 ==
            t[3 * i] * 65536 + ByteAt(t, 3 * i + 1) * 256 + ByteAt(t, 3 * i + 2)
  {
    EncodeDrop(t, i);
    var g := t[3 * i..];
    var b0, b1, b2 := ByteAt(t, 3 * i), ByteAt(t, 3 * i + 1), ByteAt(t, 3 * i + 2);
    p0, p1, p2, p3 := b0 / 4, b0 % 4 * 16 + b1 / 16, b1 % 16 * 4 + b2 / 64, b2 % 64;
    SextetBits(b0, b1, b2);
    SymbolIs(p0);
    SymbolIs(p1);
    SymbolIs(p2);
    SymbolIs(p3);
    QuadOf(g, b0, b1, b2);
    assert Encode(g)[..4] == Quad(g[..FirstGroup(|g|)]);
    assert forall k :: 0 <= k < 4 ==> Encode(t)[4 * i + k] == Encode(g)[..4][k];
  }

  lemma QuadOf(g: seq<Byte>, b0: Byte, b1: Byte, b2: Byte)
    requires g != [] && b0 == g[0] && b1 == ByteAt(g, 1) && b2 == ByteAt(g, 2)
    ensures var q := Quad(g[..FirstGroup(|g|)]);
            && q[0] == Symbol(b0 / 4) && q[1] == Symbol(b0 % 4 * 16 + b1 / 16)
            && q[2] == (if |g| > 1 then Symbol(b1 % 16 * 4 + b2 / 64) else '=')
            && q[3] == (if |g| > 2 then Symbol(b2 % 64) else '=')
  {
  }

  lemma {:induction false} EncodeInjective(s: seq<Byte>, t: seq<Byte>)
    ensures Encode(s) == Encode(t) ==> s == t
  {
    EncodeLength(s);
    EncodeLength(t);
    if Encode(s) == Encode(t) && s != [] && t != [] {
      var m, n := FirstGroup(|s|), FirstGroup(|t|);
      assert Encode(s)[..4] == Quad(s[..m]) && Encode(t)[..4] == Quad(t[..n]);
      QuadInjective(s[..m], t[..n]);
      assert Encode(s)[4..] == Encode(s[m..]) && Encode(t)[4..] == Encode(t[n..]);
      EncodeInjective(s[m..], t[n..]);
      assert s == s[..m] + s[m..] && t == t[..n] + t[n..];
    }
  }

  lemma {:induction false} ByGroupsConcat<T>(quad: seq<T> -> string, a: seq<T>, b: seq<T>)
    requires |a| % 3 == 0
    ensures ByGroups(quad, a + b) == ByGroups(quad, a) + ByGroups(quad, b)
  {
    if a == [] {
      assert a + b == b;
    } else {
      ByGroupsConcat(quad, a[3..], b);
      assert (a + b)[..3] == a[..3] && (a + b)[3..] == a[3..] + b;
    }
  }

  /** Whole groups of three bytes encode on their own. */
  lemma EncodeConcat(a: seq<Byte>, b: seq<Byte>)
    requires |a| % 3 == 0
    ensures Encode(a + b) == Encode(a) + Encode(b)
  {
    ByGroupsConcat(Quad, a, b);
  }

  lemma {:induction false} EncodeNoDash(t: seq<Byte>)
    ensures '-' !in Encode(t)
  {
    if t != [] {
      assert '-' !in Quad(t[..FirstGroup(|t|)]);
      EncodeNoDash(t[FirstGroup(|t|)..]);
    }
  }

  lemma SuffixOfConcat<T>(a: seq<T>, b: seq<T>, c: seq<T>)
    requires |c| <= |b|
    ensures HasSuffix(a + b, c) <==> HasSuffix(b, c)
  {
    assert (a + b)[|a + b| - |c|..] == b[|b| - |c|..];
  }

  lemma SuffixChars<T>(s: seq<T>, w: seq<T>)
    ensures HasSuffix(s, w) ==> forall i :: 0 <= i < |w| ==> s[|s| - |w| + i] == w[i]
  {
    if HasSuffix(s, w) {
      forall i | 0 <= i < |w| ensures s[|s| - |w| + i] == w[i] {
        assert s[|s| - |w|..][i] == w[i];
      }
    }
  }

  /** The last `groups` groups of an encoding encode the bytes from that group on. */
  lemma EncodeDrop(t: seq<Byte>, dropped: nat)
    requires 3 * dropped <= |t|
    ensures |Encode(t)| >= 4 * dropped && Encode(t)[4 * dropped..] == Encode(t[3 * dropped..])
  {
    var a, b := t[..3 * dropped], t[3 * dropped..];
    assert a + b == t;
    EncodeConcat(a, b);
    EncodeLength(a);
  }

  lemma GroupBoundary<T>(t: seq<T>, w: seq<T>, dropped: nat)
    requires w != [] && dropped == Groups(|t|) - Groups(|w|) && 3 * dropped <= |t|
    ensures t[3 * dropped..] == w <==> HasSuffix(t, w) && (|t| - |w|) % 3 == 0
  {
    if HasSuffix(t, w) && (|t| - |w|) % 3 == 0 {
      var k := (|t| - |w|) / 3;
      assert |t| == |w| + 3 * k;
      assert dropped == k;
    }
  }

  lemma DropSuffix(e: string, v: string, cut: nat)
    requires cut <= |e| && |e| - cut == |v|
    ensures HasSuffix(e, v) <==> e[cut..] == v
  {
  }

  /** Among encodings, a suffix is a word cut off at a group boundary. */
  lemma EncodeSuffix(t: seq<Byte>, w: seq<Byte>)
    requires w != [] && |Encode(w)| <= |Encode(t)|
    ensures HasSuffix(Encode(t), Encode(w)) <==> HasSuffix(t, w) && (|t| - |w|) % 3 == 0
  {
    EncodeLength(t);
    EncodeLength(w);
    var dropped := Groups(|t|) - Groups(|w|);
    EncodeDrop(t, dropped);
    DropSuffix(Encode(t), Encode(w), 4 * dropped);
    EncodeInjective(t[3 * dropped..], w);
    GroupBoundary(t, w, dropped);
  }

  lemma MoreGroups(m: nat, n: nat)
    ensures m <= n ==> Groups(m) <= Groups(n)
  {
  }

  /** A text without a dash cannot reach back over one. */
  lemma DashStopsSuffix(p: string, e: string, v: string)
    requires |e| < |v| && '-' !in v
    ensures !HasSuffix(p + "-" + e, v)
  {
    var id := p + "-" + e;
    SuffixChars(id, v);
    assert id[|p|] == '-';
    if |v| <= |id| {
      assert id[|id| - |v| + (|p| - (|id| - |v|))] == '-';
    }
  }

  /** The suffix test on an ID of the form prefix-base64(t) sees exactly a whole-group suffix of t. */
  lemma IdSuffixExact(p: string, t: seq<Byte>, w: seq<Byte>)
    requires w != []
    ensures HasSuffix(p + "-" + Encode(t), Encode(w)) <==> HasSuffix(t, w) && (|t| - |w|) % 3 == 0
  {
    if |Encode(w)| <= |Encode(t)| {
      SuffixOfConcat(p + "-", Encode(t), Encode(w));
      EncodeSuffix(t, w);
    } else {
      EncodeNoDash(w);
      DashStopsSuffix(p, Encode(t), Encode(w));
      EncodeLength(t);
      EncodeLength(w);
      MoreGroups(|w|, |t|);
    }
  }
}
