/**
 * The parts of Python's `str` type that the tools rely on: the whitespace
 * class shared by `str.strip()` and the regular-expression class `\s`,
 * `str.strip()` with no argument, `str.split(sep)` with a one-character
 * separator, and `sep.join(parts)`.
 */
module PyText {

  /** Python's whitespace test on one character (`str.isspace`, and `\s` in a
      `str` regular expression): the ASCII controls TAB..CR and FS..US, SPACE,
      and the Unicode space separators and line/paragraph separators. */
  predicate IsSpace(c: char) {
    ('\t' <= c <= '\r') || ('\U{1C}' <= c <= ' ') || c == '\U{85}' || c == '\U{A0}'
    || c == '\U{1680}' || ('\U{2000}' <= c <= '\U{200A}') || c == '\U{2028}'
    || c == '\U{2029}' || c == '\U{202F}' || c == '\U{205F}' || c == '\U{3000}'
  }

  /** An ASCII decimal digit. */
  predicate IsDigit(c: char) {
    '0' <= c <= '9'
  }

  predicate AllSpace(s: string) {
    forall i :: 0 <= i < |s| ==> IsSpace(s[i])
  }

  /** Neither first nor last character is whitespace: what `strip()` leaves. */
  predicate Stripped(s: string) {
    s == [] || (!IsSpace(s[0]) && !IsSpace(s[|s| - 1]))
  }

  /** `s.strip()`: drops leading and trailing whitespace. */
  function Strip(s: string): (r: string)
    ensures Stripped(r)
    ensures r == [] <==> AllSpace(s)
  {
    if s != [] && IsSpace(s[0]) then
      var r := Strip(s[1..]);
      assert AllSpace(s[1..]) ==> AllSpace(s) by {
        if AllSpace(s[1..]) {
          forall i | 1 <= i < |s| ensures IsSpace(s[i]) { assert s[i] == s[1..][i - 1]; }
        }
      }
      r
    else if s != [] && IsSpace(s[|s| - 1]) then
      var r := Strip(s[..|s| - 1]);
      assert s[..|s| - 1][0] == s[0];
      r
    else
      s
  }

  /** `strip()` only removes characters, so a character absent from s is
      absent from the stripped text. */
  lemma {:induction false} StripLacks(s: string, c: char)
    requires c !in s
    ensures c !in Strip(s)
  {
    if s != [] && IsSpace(s[0]) {
      StripLacks(s[1..], c);
    } else if s != [] && IsSpace(s[|s| - 1]) {
      StripLacks(s[..|s| - 1], c);
    }
  }

  lemma AllSpaceConcat(x: string, y: string)
    requires AllSpace(x) && AllSpace(y)
    ensures AllSpace(x + y)
  {
    forall i | 0 <= i < |x + y| ensures IsSpace((x + y)[i]) {
      if i < |x| { assert (x + y)[i] == x[i]; } else { assert (x + y)[i] == y[i - |x|]; }
    }
  }

  /** `s.split(sep)` for a one-character separator: the pieces between the
      occurrences of sep, empty pieces included; `"".split(sep)` is `[""]`. */
  function Split(s: string, sep: char): (r: seq<string>)
    ensures |r| >= 1
    ensures forall i :: 0 <= i < |r| ==> sep !in r[i]
  {
    if s == [] then [[]]
    else
      var rest := Split(s[1..], sep);
      if s[0] == sep then [[]] + rest else [[s[0]] + rest[0]] + rest[1..]
  }

  /** `sep.join(parts)`. */
  function Join(parts: seq<string>, sep: string): string {
    if parts == [] then []
    else if |parts| == 1 then parts[0]
    else parts[0] + sep + Join(parts[1..], sep)
  }

  /** Stripping whitespace padding gives back the padded text, provided the
      text has no whitespace at its ends itself. */
  lemma StripPadded(pre: string, x: string, post: string)
    requires AllSpace(pre) && AllSpace(post) && Stripped(x)
    ensures Strip(pre + x + post) == x
  {
    if x == [] {
      AllSpaceConcat(pre, post);
      assert pre + x + post == pre + post;
    } else {
      assert pre + x + post == pre + (x + post);
      StripLeadingSpace(pre, x + post);
      StripTrailingSpace(x, post);
    }
  }

  /** Leading whitespace does not change what `strip()` returns. */
  lemma {:induction false} StripLeadingSpace(pre: string, y: string)
    requires AllSpace(pre)
    ensures Strip(pre + y) == Strip(y)
  {
    if pre != [] {
      var s := pre + y;
      assert s[0] == pre[0] && IsSpace(pre[0]);
      assert s[1..] == pre[1..] + y;
      assert Strip(s) == Strip(s[1..]);
      StripLeadingSpace(pre[1..], y);
    } else {
      assert pre + y == y;
    }
  }

  /** Trailing whitespace after a text that starts with a non-space does not
      change what `strip()` returns. */
  lemma {:induction false} StripTrailingSpace(x: string, post: string)
    requires AllSpace(post) && x != [] && !IsSpace(x[0])
    ensures Strip(x + post) == Strip(x)
  {
    if post != [] {
      var n := |post| - 1;
      var s := x + post;
      assert s[0] == x[0] && s[|s| - 1] == post[n] && IsSpace(post[n]);
      assert s[..|s| - 1] == x + post[..n];
      assert Strip(s) == Strip(s[..|s| - 1]);
      StripTrailingSpace(x, post[..n]);
    } else {
      assert x + post == x;
    }
  }

  /** A string without the separator is a single piece. */
  lemma {:induction false} SplitWithoutSeparator(s: string, sep: char)
    requires sep !in s
    ensures Split(s, sep) == [s]
  {
    if s != [] {
      SplitWithoutSeparator(s[1..], sep);
      assert [s[0]] + s[1..] == s;
    }
  }

  /** Splitting at one occurrence of the separator splits the piece list there. */
  lemma {:induction false} SplitAround(a: string, b: string, sep: char)
    ensures Split(a + [sep] + b, sep) == Split(a, sep) + Split(b, sep)
  {
    if a == [] {
      assert a + [sep] + b == [sep] + b;
      assert ([sep] + b)[1..] == b;
    } else {
      assert (a + [sep] + b)[1..] == a[1..] + [sep] + b;
      SplitAround(a[1..], b, sep);
    }
  }

  /** Joining the pieces with the separator gives back the string. */
  lemma {:induction false} JoinSplit(s: string, sep: char)
    ensures Join(Split(s, sep), [sep]) == s
  {
    if s != [] {
      JoinSplit(s[1..], sep);
      var rest := Split(s[1..], sep);
      if s[0] == sep {
        assert Split(s, sep)[1..] == rest;
      } else {
        var r := Split(s, sep);
        assert r[0] == [s[0]] + rest[0] && r[1..] == rest[1..];
        if |rest| == 1 {
          assert s == [s[0]] + rest[0];
        } else {
          assert Join(rest, [sep]) == rest[0] + [sep] + Join(rest[1..], [sep]);
          assert s == [s[0]] + s[1..];
        }
      }
    }
  }

  /** Splitting a join gives back the parts when no part holds the separator. */
  lemma {:induction false} SplitJoin(parts: seq<string>, sep: char)
    requires |parts| >= 1
    requires forall i :: 0 <= i < |parts| ==> sep !in parts[i]
    ensures Split(Join(parts, [sep]), sep) == parts
  {
    SplitWithoutSeparator(parts[0], sep);
    if |parts| > 1 {
      SplitJoin(parts[1..], sep);
      SplitAround(parts[0], Join(parts[1..], [sep]), sep);
      assert parts == [parts[0]] + parts[1..];
    }
  }
}
