/** The string operations the analyzer relies on: `StartsWith`, `EndsWith`,
    `Split(sep).Last()` and the placeholder substitution that turns a diagnostic
    message template into a message. Comparisons are ordinal. */
module Text {

  /** `s.StartsWith(p)`. */
  predicate StartsWith(s: string, p: string)
  {
    |p| <= |s| && s[..|p|] == p
  }

  /** `s.EndsWith(x)`. */
  predicate EndsWith(s: string, x: string)
  {
    |x| <= |s| && s[|s| - |x|..] == x
  }

  lemma StartsWithAppend(p: string, x: string)
    ensures StartsWith(p + x, p)
  {
    assert (p + x)[..|p|] == p;
  }

  lemma EndsWithAppend(x: string, s: string)
    ensures EndsWith(x + s, s)
  {
    assert (x + s)[|x|..] == s;
  }

  /** `s.Split(sep).Last()`: the text after the last separator, or all of `s`
      when it holds no separator. */
  function LastSegment(s: string, sep: char): (r: string)
    ensures EndsWith(s, r)
    ensures sep !in r
    ensures |r| == |s| || s[|s| - |r| - 1] == sep
  {
    if |s| == 0 then ""
    else if s[|s| - 1] == sep then ""
    else
      var init := s[..|s| - 1];
      assert s == init + [s[|s| - 1]];
      LastSegment(init, sep) + [s[|s| - 1]]
  }

  /** The last segment is the part after the last separator, whatever precedes it. */
  lemma {:induction false} LastSegmentAfterSeparator(prefix: string, sep: char, last: string)
    requires sep !in last
    ensures LastSegment(prefix + [sep] + last, sep) == last
  {
    var s := prefix + [sep] + last;
    if |last| > 0 {
      var init := last[..|last| - 1];
      assert s[..|s| - 1] == prefix + [sep] + init;
      LastSegmentAfterSeparator(prefix, sep, init);
      assert last == init + [last[|last| - 1]];
    }
  }

  /** True when `t` opens with a placeholder `{d}` whose index `d` names one of `args`. */
  predicate PlaceholderAt(t: string, args: seq<string>)
  {
    |t| >= 3 && t[0] == '{' && '0' <= t[1] <= '9' && t[2] == '}' &&
    (t[1] as int - '0' as int) < |args|
  }

  /** `String.Format(template, args)` restricted to single-digit placeholders:
      each `{d}` with `d < |args|` becomes `args[d]` (see `FormatPlaceholder`);
      every other character is copied, so text without a brace is copied
      unchanged. Inserted arguments are not scanned again. */
  function Format(template: string, args: seq<string>): (r: string)
    decreases |template|
    ensures '{' !in template ==> r == template
  {
    if |template| == 0 then ""
    else if PlaceholderAt(template, args) then
      args[template[1] as int - '0' as int] + Format(template[3..], args)
    else
      [template[0]] + Format(template[1..], args)
  }

  /** Text without an opening brace passes through formatting unchanged. */
  lemma {:induction false} FormatLiteralPrefix(literal: string, rest: string, args: seq<string>)
    requires '{' !in literal
    ensures Format(literal + rest, args) == literal + Format(rest, args)
  {
    if |literal| > 0 {
      var t := literal + rest;
      assert t[0] == literal[0] != '{';
      assert t[1..] == literal[1..] + rest;
      FormatLiteralPrefix(literal[1..], rest, args);
      assert literal == [literal[0]] + literal[1..];
    } else {
      assert literal + rest == rest;
    }
  }

  /** Formatting a template that opens with a placeholder inserts its argument. */
  lemma FormatAtPlaceholder(t: string, args: seq<string>)
    requires PlaceholderAt(t, args)
    ensures Format(t, args) == args[t[1] as int - '0' as int] + Format(t[3..], args)
  {
  }

  /** A placeholder `{d}` naming an argument is replaced by that argument. */
  lemma FormatPlaceholder(digit: char, rest: string, args: seq<string>)
    requires '0' <= digit <= '9' && (digit as int - '0' as int) < |args|
    ensures Format(['{', digit, '}'] + rest, args) == args[digit as int - '0' as int] + Format(rest, args)
  {
    var t := ['{', digit, '}'] + rest;
    assert t[0] == '{' && t[1] == digit && t[2] == '}';
    assert t[3..] == rest;
    FormatAtPlaceholder(t, args);
  }

  /** A template `p1{0}p2{1}p3` with brace-free literal parts quotes its two arguments in order. */
  lemma FormatTwoPlaceholders(p1: string, p2: string, p3: string, a0: string, a1: string)
    requires '{' !in p1 && '{' !in p2 && '{' !in p3
    ensures Format(p1 + ("{0}" + (p2 + ("{1}" + p3))), [a0, a1]) == p1 + (a0 + (p2 + (a1 + p3)))
  {
    var args := [a0, a1];
    FormatLiteralPrefix(p1, "{0}" + (p2 + ("{1}" + p3)), args);
    FormatPlaceholder('0', p2 + ("{1}" + p3), args);
    FormatLiteralPrefix(p2, "{1}" + p3, args);
    FormatPlaceholder('1', p3, args);
  }
}
