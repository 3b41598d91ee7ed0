/** Character-level string operations of `java.lang.String` and
    `java.util.StringTokenizer` that the class finder relies on. */
module Text {

  /** `s.endsWith(suffix)`: case-sensitive. */
  predicate EndsWith(s: string, suffix: string) {
    |suffix| <= |s| && s[|s| - |suffix|..] == suffix
  }

  /** A suffix of a suffix is a suffix. */
  lemma EndsWithTransitive(s: string, t: string, u: string)
    requires EndsWith(s, t) && EndsWith(t, u)
    ensures EndsWith(s, u)
  {
    forall i | 0 <= i < |u| ensures s[|s| - |u| + i] == u[i] {
      assert s[|s| - |t| + (|t| - |u| + i)] == t[|t| - |u| + i];
    }
  }

  /** `s.startsWith(prefix)`: case-sensitive. */
  predicate StartsWith(s: string, prefix: string) {
    |prefix| <= |s| && s[..|prefix|] == prefix
  }

  /** `s.replace(from, to)` for single characters: every occurrence of `from`
      becomes `to`, everything else stays where it was. */
  function ReplaceChar(s: string, from: char, to: char): (r: string)
    ensures |r| == |s|
    ensures forall i | 0 <= i < |s| :: r[i] == (if s[i] == from then to else s[i])
  {
    if s == [] then [] else [if s[0] == from then to else s[0]] + ReplaceChar(s[1..], from, to)
  }

  /** `s.replace(c, "")`: every occurrence of `c` is dropped, the other
      characters keep their order. */
  function RemoveChar(s: string, c: char): (r: string)
    ensures c !in r
    ensures |r| <= |s|
    ensures forall x | x != c :: multiset(r)[x] == multiset(s)[x]
  {
    if s == [] then []
    else
      assert s == [s[0]] + s[1..];
      if s[0] == c then RemoveChar(s[1..], c) else [s[0]] + RemoveChar(s[1..], c)
  }

  lemma {:induction false} RemoveCharAbsent(s: string, c: char)
    requires c !in s
    ensures RemoveChar(s, c) == s
  {
    if s != [] {
      RemoveCharAbsent(s[1..], c);
    }
  }

  lemma {:induction false} RemoveCharAppend(s: string, t: string, c: char)
    ensures RemoveChar(s + t, c) == RemoveChar(s, c) + RemoveChar(t, c)
  {
    if s == [] {
      assert s + t == t;
    } else {
      assert (s + t)[1..] == s[1..] + t;
      RemoveCharAppend(s[1..], t, c);
    }
  }

  lemma ReplaceCharAppend(s: string, t: string, from: char, to: char)
    ensures ReplaceChar(s + t, from, to) == ReplaceChar(s, from, to) + ReplaceChar(t, from, to)
  {
    var l := ReplaceChar(s + t, from, to);
    var r := ReplaceChar(s, from, to) + ReplaceChar(t, from, to);
    assert |l| == |r|;
    forall i | 0 <= i < |l| ensures l[i] == r[i] {
      if i < |s| {
        assert (s + t)[i] == s[i];
      } else {
        assert (s + t)[i] == t[i - |s|];
      }
    }
  }

  /** After replacing `from` by a different character, no `from` is left. */
  lemma ReplaceCharRemoves(s: string, from: char, to: char)
    requires from != to
    ensures from !in ReplaceChar(s, from, to)
  {}

  /** The only character `ReplaceChar` can introduce is `to`. */
  lemma ReplaceCharKeepsAbsent(s: string, from: char, to: char, c: char)
    requires c !in s && c != to
    ensures c !in ReplaceChar(s, from, to)
  {}

  /** `ClassInfo.translateInternalClassName`: the binary name of a class or
      interface from its internal form (section 4.2.1 of the Java Virtual
      Machine Specification), `/` becoming `.`. */
  function TranslateInternalName(internalName: string): (r: string)
    ensures |r| == |internalName|
    ensures '/' !in r
    ensures forall i | 0 <= i < |r| :: r[i] == if internalName[i] == '/' then '.' else internalName[i]
  {
    ReplaceCharRemoves(internalName, '/', '.');
    ReplaceChar(internalName, '/', '.')
  }

  lemma ReplaceCharAbsent(s: string, from: char, to: char)
    requires from !in s
    ensures ReplaceChar(s, from, to) == s
  {
    var r := ReplaceChar(s, from, to);
    forall i | 0 <= i < |s| ensures r[i] == s[i] {
      assert s[i] != from;
    }
  }

  /** `Character.toLowerCase` restricted to ASCII letters. */
  function LowerChar(c: char): char {
    if 'A' <= c <= 'Z' then (c as int + 32) as char else c
  }

  /** `s.toLowerCase()`, ASCII letters only. */
  function ToLower(s: string): (r: string)
    ensures |r| == |s|
    ensures forall i | 0 <= i < |s| :: r[i] == LowerChar(s[i])
  {
    if s == [] then [] else [LowerChar(s[0])] + ToLower(s[1..])
  }

  /** Index of the last occurrence of `c` in `s`, or -1 (`String.lastIndexOf`). */
  function LastIndexOf(s: string, c: char): (r: int)
    ensures -1 <= r < |s|
    ensures r >= 0 ==> s[r] == c
    ensures forall j | r < j < |s| :: s[j] != c
  {
    if s == [] then -1
    else if s[|s| - 1] == c then |s| - 1
    else LastIndexOf(s[..|s| - 1], c)
  }

  /** The default delimiter set of `java.util.StringTokenizer`:
      space, tab, newline, carriage return and form feed. */
  predicate IsDelimiter(ch: char) {
    ch == ' ' || ch == '\t' || ch == '\n' || ch == '\r' || ch == 12 as char
  }

  /** A token as `StringTokenizer.nextToken` returns it: non-empty, no delimiter. */
  predicate IsToken(t: string) {
    t != [] && forall i | 0 <= i < |t| :: !IsDelimiter(t[i])
  }

  /** Length of the leading run of non-delimiter characters. */
  function RunLength(s: string): (n: nat)
    ensures n <= |s|
    ensures forall i | 0 <= i < n :: !IsDelimiter(s[i])
    ensures n < |s| ==> IsDelimiter(s[n])
  {
    if s == [] || IsDelimiter(s[0]) then 0 else 1 + RunLength(s[1..])
  }

  /** The tokens `new StringTokenizer(s)` yields, in order. */
  function Tokens(s: string): (ts: seq<string>)
    ensures forall i | 0 <= i < |ts| :: IsToken(ts[i])
    decreases |s|
  {
    if s == [] then []
    else if IsDelimiter(s[0]) then Tokens(s[1..])
    else
      var n := RunLength(s);
      [s[..n]] + Tokens(s[n..])
  }

  /** Words separated by single spaces, the usual layout of a manifest
      `Class-Path` value. */
  function JoinWords(ts: seq<string>): string {
    if ts == [] then []
    else if |ts| == 1 then ts[0]
    else ts[0] + " " + JoinWords(ts[1..])
  }

  lemma {:induction false} RunLengthOfToken(t: string, rest: string)
    requires forall i | 0 <= i < |t| :: !IsDelimiter(t[i])
    requires rest == [] || IsDelimiter(rest[0])
    ensures RunLength(t + rest) == |t|
  {
    if t == [] {
      assert t + rest == rest;
    } else {
      assert (t + rest)[1..] == t[1..] + rest;
      RunLengthOfToken(t[1..], rest);
    }
  }

  /** Tokenizing a space-separated list of tokens gives the list back. */
  lemma {:induction false} TokensOfJoinWords(ts: seq<string>)
    requires forall i | 0 <= i < |ts| :: IsToken(ts[i])
    ensures Tokens(JoinWords(ts)) == ts
  {
    if ts == [] {
    } else if |ts| == 1 {
      var t := ts[0];
      RunLengthOfToken(t, []);
      assert t + [] == t;
      assert t[..|t|] == t;
      assert t[|t|..] == [];
    } else {
      var t := ts[0];
      var rest := JoinWords(ts[1..]);
      var s := t + " " + rest;
      assert s == t + (" " + rest);
      RunLengthOfToken(t, " " + rest);
      assert s[..|t|] == t;
      assert s[|t|..] == " " + rest;
      assert (" " + rest)[1..] == rest;
      TokensOfJoinWords(ts[1..]);
      assert Tokens(" " + rest) == Tokens(rest);
    }
  }

  /** `String.hashCode()`: h = 31 * h + c over the characters, in 32-bit
      two's-complement arithmetic (characters outside the Basic Multilingual
      Plane, which Java splits into two code units, are not distinguished). */
  function StringHash(s: string): bv32 {
    if s == [] then 0
    else HashStep(StringHash(s[..|s| - 1]), (s[|s| - 1] as int % 0x1_0000_0000) as bv32)
  }

  /** One step of Java's polynomial hash, `31 * h + x` with 32-bit wrap-around. */
  function HashStep(h: bv32, x: bv32): bv32 {
    31 * h + x
  }
}
