/** The Kotlin string operations the generators rely on, as functions over
    `string`: `startsWith`, `contains`, `removePrefix`/`removeSuffix`, `trim`,
    `split`, `replace`, `equals(ignoreCase = true)` and `toUpperCase`. */
module Text {
  import opened Joining

  /** The double-quote character. */
  const QUOTE: char := '\U{22}'

  predicate StartsWith(s: string, prefix: string) {
    prefix <= s
  }

  predicate EndsWith(s: string, suffix: string) {
    |suffix| <= |s| && s[|s| - |suffix|..] == suffix
  }

  /** `s.contains(t)`, as a scan over the start positions. */
  predicate Contains(s: string, t: string)
    decreases |s|
  {
    t <= s || (|s| > 0 && Contains(s[1..], t))
  }

  /** `Contains` holds exactly when `t` occurs at some position of `s`. */
  lemma {:induction false} ContainsIff(s: string, t: string)
    ensures Contains(s, t) <==> exists i :: 0 <= i <= |s| && t <= s[i..]
    decreases |s|
  {
    assert s[0..] == s;
    if |s| > 0 {
      ContainsIff(s[1..], t);
      if Contains(s, t) && !(t <= s) {
        var j :| 0 <= j <= |s| - 1 && t <= s[1..][j..];
        assert s[1..][j..] == s[j + 1..];
      }
      if exists i :: 0 <= i <= |s| && t <= s[i..] {
        var i :| 0 <= i <= |s| && t <= s[i..];
        if i > 0 {
          assert s[1..][i - 1..] == s[i..];
          assert t <= s[1..][i - 1..];
        }
      }
    } else {
      if exists i :: 0 <= i <= |s| && t <= s[i..] {
        var i :| 0 <= i <= |s| && t <= s[i..];
        assert s[i..] == s;
      }
    }
  }

  /** `s.removePrefix(prefix)`: undoes a prepended prefix, leaves other strings alone. */
  function RemovePrefix(s: string, prefix: string): (r: string)
    ensures StartsWith(s, prefix) ==> prefix + r == s
    ensures !StartsWith(s, prefix) ==> r == s
  {
    if StartsWith(s, prefix) then s[|prefix|..] else s
  }

  /** `s.removeSuffix(suffix)`: undoes an appended suffix, leaves other strings alone. */
  function RemoveSuffix(s: string, suffix: string): (r: string)
    ensures EndsWith(s, suffix) ==> r + suffix == s
    ensures !EndsWith(s, suffix) ==> r == s
  {
    if EndsWith(s, suffix) then s[..|s| - |suffix|] else s
  }

  /** Kotlin's `Char.isWhitespace()` on the JVM (`Character.isWhitespace` or
      `Character.isSpaceChar`): the C0 separators and the Unicode space,
      line and paragraph separators. */
  predicate IsWhitespace(c: char) {
    var n := c as int;
    (0x09 <= n <= 0x0D) || (0x1C <= n <= 0x20) || n == 0xA0 || n == 0x1680
    || (0x2000 <= n <= 0x200A) || n == 0x2028 || n == 0x2029 || n == 0x202F
    || n == 0x205F || n == 0x3000
  }

  /** The predicate `{ it <= ' ' }` handed to `trim` in the sample. */
  predicate IsControlOrSpace(c: char) {
    c <= ' '
  }

  function TrimStart(s: string, blank: char -> bool): string
    decreases |s|
  {
    if |s| > 0 && blank(s[0]) then TrimStart(s[1..], blank) else s
  }

  function TrimEnd(s: string, blank: char -> bool): string
    decreases |s|
  {
    if |s| > 0 && blank(s[|s| - 1]) then TrimEnd(s[..|s| - 1], blank) else s
  }

  /** `s.trim(blank)`: drops the blank characters at both ends. */
  function Trim(s: string, blank: char -> bool): string {
    TrimEnd(TrimStart(s, blank), blank)
  }

  /** `TrimStart` removes a run of blanks from the front and nothing else. */
  lemma {:induction false} TrimStartDropsBlanks(s: string, blank: char -> bool)
    ensures |TrimStart(s, blank)| <= |s|
    ensures TrimStart(s, blank) == s[|s| - |TrimStart(s, blank)|..]
    ensures forall k :: 0 <= k < |s| - |TrimStart(s, blank)| ==> blank(s[k])
    ensures TrimStart(s, blank) != [] ==> !blank(TrimStart(s, blank)[0])
  {
    if |s| > 0 && blank(s[0]) {
      TrimStartDropsBlanks(s[1..], blank);
      var r := TrimStart(s, blank);
      assert s[1..][|s| - 1 - |r|..] == s[|s| - |r|..];
      forall k | 0 < k < |s| - |r| ensures blank(s[k]) {
        assert s[k] == s[1..][k - 1];
      }
    }
  }

  /** `TrimEnd` removes a run of blanks from the back and nothing else. */
  lemma {:induction false} TrimEndDropsBlanks(s: string, blank: char -> bool)
    ensures |TrimEnd(s, blank)| <= |s|
    ensures TrimEnd(s, blank) == s[..|TrimEnd(s, blank)|]
    ensures forall k :: |TrimEnd(s, blank)| <= k < |s| ==> blank(s[k])
    ensures TrimEnd(s, blank) != [] ==> !blank(TrimEnd(s, blank)[|TrimEnd(s, blank)| - 1])
  {
    if |s| > 0 && blank(s[|s| - 1]) {
      TrimEndDropsBlanks(s[..|s| - 1], blank);
      var r := TrimEnd(s, blank);
      assert s[..|s| - 1][..|r|] == s[..|r|];
    }
  }

  /** `s.split(sep)` for a one-character delimiter: the pieces between the
      delimiters, empty pieces included, and always at least one piece. */
  function Split(s: string, sep: char): (pieces: seq<string>)
    ensures |pieces| >= 1
    decreases |s|
  {
    if |s| == 0 then [""]
    else
      var rest := Split(s[1..], sep);
      if s[0] == sep then [""] + rest
      else [[s[0]] + rest[0]] + rest[1..]
  }

  /** Splitting and joining back with the delimiter gives the original text. */
  lemma {:induction false} SplitJoin(s: string, sep: char)
    ensures Join([sep], Split(s, sep)) == s
    decreases |s|
  {
    if |s| > 0 {
      var rest := Split(s[1..], sep);
      SplitJoin(s[1..], sep);
      if s[0] == sep {
        JoinConcat([sep], [""], rest);
        assert [""] + rest == Split(s, sep);
        assert "" + [sep] + s[1..] == s;
      } else if |rest| == 1 {
        assert Split(s, sep) == [[s[0]] + rest[0]];
        assert [s[0]] + s[1..] == s;
      } else {
        var head := [s[0]] + rest[0];
        assert rest == [rest[0]] + rest[1..];
        JoinConcat([sep], [rest[0]], rest[1..]);
        JoinConcat([sep], [head], rest[1..]);
        assert Split(s, sep) == [head] + rest[1..];
        assert [s[0]] + s[1..] == s;
      }
    }
  }

  /** No piece of a split holds the delimiter. */
  lemma {:induction false} SplitPiecesLackSeparator(s: string, sep: char)
    ensures forall i :: 0 <= i < |Split(s, sep)| ==> sep !in Split(s, sep)[i]
    decreases |s|
  {
    if |s| > 0 {
      var rest := Split(s[1..], sep);
      SplitPiecesLackSeparator(s[1..], sep);
      var pieces := Split(s, sep);
      if s[0] != sep {
        assert pieces == [[s[0]] + rest[0]] + rest[1..];
        assert pieces[0] == [s[0]] + rest[0];
        forall i | 1 <= i < |pieces| ensures sep !in pieces[i] {
          assert pieces[i] == rest[i];
        }
      } else {
        forall i | 1 <= i < |pieces| ensures sep !in pieces[i] {
          assert pieces[i] == rest[i - 1];
        }
      }
    }
  }

  /** A text without the delimiter is a single piece. */
  lemma {:induction false} SplitNoSeparator(s: string, sep: char)
    requires sep !in s
    ensures Split(s, sep) == [s]
    decreases |s|
  {
    if |s| > 0 {
      SplitNoSeparator(s[1..], sep);
      assert [s[0]] + s[1..] == s;
    }
  }

  /** The first delimiter ends the first piece; the rest splits on its own. */
  lemma {:induction false} SplitAtSeparator(a: string, b: string, sep: char)
    requires sep !in a
    ensures Split(a + [sep] + b, sep) == [a] + Split(b, sep)
    decreases |a|
  {
    var s := a + [sep] + b;
    if |a| == 0 {
      assert s[1..] == b;
    } else {
      assert s[1..] == a[1..] + [sep] + b;
      SplitAtSeparator(a[1..], b, sep);
      assert [a[0]] + a[1..] == a;
    }
  }

  /** `s.replace(pattern, "")`: every non-overlapping occurrence of `pattern`,
      found left to right, is deleted. */
  function RemoveAll(s: string, pattern: string): (r: string)
    requires pattern != []
    decreases |s|
  {
    if s == [] then []
    else if StartsWith(s, pattern) then RemoveAll(s[|pattern|..], pattern)
    else [s[0]] + RemoveAll(s[1..], pattern)
  }

  /** Deleting a one-character pattern removes every copy of it: the text
      comes back unchanged exactly when the character was absent, and shorter
      otherwise. */
  lemma {:induction false} RemoveAllChar(s: string, c: char)
    ensures c !in RemoveAll(s, [c])
    ensures c !in s ==> RemoveAll(s, [c]) == s
    ensures c in s ==> |RemoveAll(s, [c])| < |s|
    ensures |RemoveAll(s, [c])| <= |s|
    decreases |s|
  {
    if s != [] {
      RemoveAllChar(s[1..], c);
      assert s == [s[0]] + s[1..];
    }
  }

  /** A text without the pattern is left alone. */
  lemma {:induction false} RemoveAllAbsent(s: string, pattern: string)
    requires pattern != []
    requires !Contains(s, pattern)
    ensures RemoveAll(s, pattern) == s
    decreases |s|
  {
    if s != [] {
      RemoveAllAbsent(s[1..], pattern);
    }
  }

  /** ASCII upper-casing of one character. */
  function UpperChar(c: char): char {
    if 'a' <= c <= 'z' then (c as int - 32) as char else c
  }

  /** ASCII lower-casing of one character. */
  function LowerChar(c: char): char {
    if 'A' <= c <= 'Z' then (c as int + 32) as char else c
  }

  /** Kotlin's per-character test in `equals(ignoreCase = true)`. */
  predicate CharEqualsIgnoreCase(a: char, b: char) {
    a == b || UpperChar(a) == UpperChar(b) || LowerChar(a) == LowerChar(b)
  }

  /** `a.equals(b, ignoreCase = true)`. */
  predicate EqualsIgnoreCase(a: string, b: string) {
    |a| == |b| && forall i :: 0 <= i < |a| ==> CharEqualsIgnoreCase(a[i], b[i])
  }

  /** `s.toUpperCase()`, on ASCII letters. */
  function ToUpper(s: string): string {
    seq(|s|, i requires 0 <= i < |s| => UpperChar(s[i]))
  }

  lemma CharEqualsIgnoreCaseIff(a: char, b: char)
    ensures CharEqualsIgnoreCase(a, b) <==> UpperChar(a) == UpperChar(b)
  {
  }

  /** Case-insensitive equality is equality of the upper-cased texts; hence it
      is reflexive, symmetric and transitive. */
  lemma {:induction false} EqualsIgnoreCaseIff(a: string, b: string)
    ensures EqualsIgnoreCase(a, b) <==> ToUpper(a) == ToUpper(b)
  {
    if EqualsIgnoreCase(a, b) {
      forall i | 0 <= i < |a| ensures ToUpper(a)[i] == ToUpper(b)[i] {
        CharEqualsIgnoreCaseIff(a[i], b[i]);
      }
    }
    if ToUpper(a) == ToUpper(b) {
      forall i | 0 <= i < |a| ensures CharEqualsIgnoreCase(a[i], b[i]) {
        assert ToUpper(a)[i] == ToUpper(b)[i];
        CharEqualsIgnoreCaseIff(a[i], b[i]);
      }
    }
  }

  /** Upper-casing leaves no ASCII lower-case letter, and a second pass changes nothing. */
  lemma ToUpperIdempotent(s: string)
    ensures forall i :: 0 <= i < |s| ==> !('a' <= ToUpper(s)[i] <= 'z')
    ensures ToUpper(ToUpper(s)) == ToUpper(s)
  {
  }
}
