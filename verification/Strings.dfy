/** Text helpers shared by every module: the parts of Go's `strings` package the service calls. */
module Strings {
  datatype Option<+T> = None | Some(value: T)

  /** strings.HasSuffix */
  predicate HasSuffix<T(==)>(s: seq<T>, suffix: seq<T>) {
    |suffix| <= |s| && s[|s| - |suffix|..] == suffix
  }

  /** strings.Contains */
  predicate Contains(s: string, part: string) {
    exists i :: 0 <= i <= |s| - |part| && s[i..][..|part|] == part
  }

  /** strings.TrimPrefix */
  function TrimPrefix(s: string, prefix: string): string {
    if prefix <= s then s[|prefix|..] else s
  }

  /** Go's `<` on strings: lexicographic by code point. */
  predicate Less(s: string, t: string) {
    if t == [] then false
    else if s == [] then true
    else s[0] < t[0] || (s[0] == t[0] && Less(s[1..], t[1..]))
  }

  // ----- the same, said of the texts -----

  lemma HasSuffixIff<T>(s: seq<T>, suffix: seq<T>)
    ensures HasSuffix(s, suffix) <==> exists before: seq<T> :: s == before + suffix
  {
    if HasSuffix(s, suffix) {
      assert s == s[..|s| - |suffix|] + suffix;
    }
  }

  lemma ContainsIff(s: string, part: string)
    ensures Contains(s, part) <==> exists before: string, after: string :: s == before + part + after
  {
    if i :| 0 <= i <= |s| - |part| && s[i..][..|part|] == part {
      assert s == s[..i] + part + s[i + |part|..];
    }
    if before: string, after: string :| s == before + part + after {
      assert s[|before|..][..|part|] == part;
    }
  }

  lemma TrimPrefixIs(s: string, prefix: string)
    ensures TrimPrefix(prefix + s, prefix) == s
    ensures (forall rest: string :: s != prefix + rest) ==> TrimPrefix(s, prefix) == s
  {
    assert (prefix + s)[|prefix|..] == s && prefix <= prefix + s;
    assert prefix <= s ==> s == prefix + s[|prefix|..];
  }

  /** The texts agree up to a place where the first ends or has the smaller character. */
  lemma {:induction false} LessIff(s: string, t: string)
    ensures Less(s, t) <==>
            exists i :: 0 <= i <= |s| && i < |t| && s[..i] == t[..i] && (i == |s| || s[i] < t[i])
  {
    if s != [] && t != [] && s[0] == t[0] {
      LessIff(s[1..], t[1..]);
      if i :|
        0 <= i <= |s| - 1 && i < |t| - 1 && s[1..][..i] == t[1..][..i] && (i == |s| - 1 || s[1..][i] < t[1..][i])
      {
        assert s[..i + 1] == [s[0]] + s[1..][..i] && t[..i + 1] == [t[0]] + t[1..][..i];
        assert i + 1 == |s| || s[i + 1] < t[i + 1];
      }
      if j :| 0 <= j <= |s| && j < |t| && s[..j] == t[..j] && (j == |s| || s[j] < t[j]) {
        LessTail(s, t, j);
      }
    } else if s != [] && t != [] {
      if j :| 0 < j <= |s| && j < |t| && s[..j] == t[..j] {
        PrefixHead(s, t, j);
      }
      assert s[..0] == t[..0];
    } else if t != [] {
      assert s[..0] == t[..0];
    }
  }

  lemma PrefixHead(s: string, t: string, j: nat)
    requires 0 < j <= |s| && j <= |t| && s[..j] == t[..j]
    ensures s[0] == t[0]
  {
    assert s[..j][0] == t[..j][0];
  }

  lemma LessTail(s: string, t: string, j: nat)
    requires s != [] && t != [] && s[0] == t[0]
    requires j <= |s| && j < |t| && s[..j] == t[..j] && (j == |s| || s[j] < t[j])
    ensures 0 < j && s[1..][..j - 1] == t[1..][..j - 1] && (j - 1 == |s[1..]| || s[1..][j - 1] < t[1..][j - 1])
  {
    if j > 0 {
      assert s[1..][..j - 1] == s[..j][1..] && t[1..][..j - 1] == t[..j][1..];
    }
  }

  lemma {:induction false} LessIsStrictOrder(s: string, t: string, u: string)
    ensures !Less(s, s)
    ensures Less(s, t) ==> !Less(t, s)
    ensures Less(s, t) && Less(t, u) ==> Less(s, u)
  {
    if s != [] && t != [] && u != [] {
      LessIsStrictOrder(s[1..], t[1..], u[1..]);
    } else if s != [] && t != [] {
      LessIsStrictOrder(s[1..], t[1..], []);
    } else if s != [] {
      LessIsStrictOrder(s[1..], [], []);
    }
  }

  lemma {:induction false} LessIsTotal(s: string, t: string)
    ensures Less(s, t) || s == t || Less(t, s)
  {
    if s != [] && t != [] && s[0] == t[0] {
      LessIsTotal(s[1..], t[1..]);
      if s[1..] == t[1..] {
        assert s == [s[0]] + s[1..] && t == [t[0]] + t[1..];
      }
    }
  }
}
