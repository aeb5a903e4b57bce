/**
 * The pieces of JavaScript's string behaviour that the changelog scripts rely on:
 * the white-space and line-terminator classes of regular expressions, `trim`,
 * `indexOf`/`includes`, `split` and `join` with a string separator, ASCII upper-casing
 * and `replace` with a string pattern (first occurrence only, `$` patterns expanded).
 */
module JsString {

  /** LineTerminator of ECMA-262: the characters `.` does not match. */
  predicate IsLineTerminator(c: char) {
    c == '\n' || c == '\r' || c == '\U{2028}' || c == '\U{2029}'
  }

  /** WhiteSpace and LineTerminator of ECMA-262: what `\s` matches and what `trim` removes. */
  predicate IsWhiteSpace(c: char) {
    IsLineTerminator(c) || c == '\t' || c == '\U{000B}' || c == '\U{000C}' || c == ' '
    || c == '\U{00A0}' || c == '\U{1680}' || ('\U{2000}' <= c <= '\U{200A}')
    || c == '\U{202F}' || c == '\U{205F}' || c == '\U{3000}' || c == '\U{FEFF}'
  }

  /** `\w` of a regular expression without the `u` flag. */
  predicate IsWordChar(c: char) {
    ('a' <= c <= 'z') || ('A' <= c <= 'Z') || ('0' <= c <= '9') || c == '_'
  }

  /** `!s.trim()`: the string holds nothing but white space. */
  predicate IsBlank(s: string) {
    forall i :: 0 <= i < |s| ==> IsWhiteSpace(s[i])
  }

  /** `.` would match every character of `s`. */
  predicate SingleLine(s: string) {
    forall i :: 0 <= i < |s| ==> !IsLineTerminator(s[i])
  }

  /** Length of the longest white-space prefix. */
  function LeadingSpace(s: string): (n: nat)
    ensures n <= |s| && IsBlank(s[..n])
    ensures n < |s| ==> !IsWhiteSpace(s[n])
    decreases |s|
  {
    if s != [] && IsWhiteSpace(s[0]) then
      var n := 1 + LeadingSpace(s[1..]);
      assert forall i :: 1 <= i < n ==> s[..n][i] == s[1..][..n - 1][i - 1];
      n
    else 0
  }

  /** Length of the longest white-space suffix. */
  function TrailingSpace(s: string): (n: nat)
    ensures n <= |s| && IsBlank(s[|s| - n..])
    ensures n < |s| ==> !IsWhiteSpace(s[|s| - n - 1])
    decreases |s|
  {
    if s != [] && IsWhiteSpace(s[|s| - 1]) then
      var t := s[..|s| - 1];
      var m := TrailingSpace(t);
      BlankSnoc(t, m, s[|s| - 1]);
      assert t + [s[|s| - 1]] == s;
      1 + m
    else 0
  }

  /** A blank suffix stays blank when a white-space character is appended. */
  lemma BlankSnoc(t: string, m: nat, c: char)
    requires m <= |t| && IsBlank(t[|t| - m..]) && IsWhiteSpace(c)
    ensures IsBlank((t + [c])[|t| - m..])
  {
    var u := (t + [c])[|t| - m..];
    forall i | 0 <= i < |u| ensures IsWhiteSpace(u[i]) {
      if i < m { assert u[i] == t[|t| - m..][i]; }
    }
  }

  /** `s.trim()`. */
  function Trim(s: string): (r: string)
    ensures r == [] <==> IsBlank(s)
    ensures r != [] ==> !IsWhiteSpace(r[0]) && !IsWhiteSpace(r[|r| - 1])
    ensures LeadingSpace(s) + |r| <= |s| && r == s[LeadingSpace(s)..LeadingSpace(s) + |r|]
  {
    var a := LeadingSpace(s);
    var rest := s[a..];
    var r := rest[..|rest| - TrailingSpace(rest)];
    assert r == [] ==> s[..a] == s;
    r
  }

  /** Trimming a string that neither starts nor ends with white space changes nothing. */
  lemma TrimUnpadded(s: string)
    requires s != [] ==> !IsWhiteSpace(s[0]) && !IsWhiteSpace(s[|s| - 1])
    ensures Trim(s) == s
  {
  }

  /** `trim` is idempotent. */
  lemma TrimTwice(s: string)
    ensures Trim(Trim(s)) == Trim(s)
  {
    TrimUnpadded(Trim(s));
  }

  /** A trimmed string does not start with white space, in particular not with an indent. */
  lemma TrimmedNotIndented(s: string)
    ensures !(|Trim(s)| >= 1 && Trim(s)[0] == ' ')
  {
  }

  /** Trimming never introduces a character: a character absent from `s` is absent from `s.trim()`. */
  lemma TrimKeepsOut(s: string, c: char)
    requires c !in s
    ensures c !in Trim(s)
  {
  }

  /** `pat` occurs in `s` at index `i`. */
  predicate OccursAt(s: string, pat: string, i: int) {
    0 <= i && i + |pat| <= |s| && s[i..i + |pat|] == pat
  }

  /** `s.includes(pat)`. */
  predicate Contains(s: string, pat: string) {
    exists i :: 0 <= i <= |s| && OccursAt(s, pat, i)
  }

  /** `s.endsWith(suffix)`. */
  predicate EndsWith(s: string, suffix: string) {
    |suffix| <= |s| && s[|s| - |suffix|..] == suffix
  }

  /** `s.startsWith(p)`. */
  predicate StartsWith(s: string, p: string) {
    |p| <= |s| && s[..|p|] == p
  }

  /** A concatenation starts with its first part. */
  lemma StartsWithConcat(a: string, b: string)
    ensures StartsWith(a + b, a)
  {
    assert (a + b)[..|a|] == a;
  }

  /** How often `c` occurs in `s`. */
  function CharCount(s: string, c: char): nat {
    multiset(s)[c]
  }

  /** The occurrences in a concatenation are those of its parts. */
  lemma CharCountAppend(a: string, b: string, c: char)
    ensures CharCount(a + b, c) == CharCount(a, c) + CharCount(b, c)
  {
    assert multiset(a + b) == multiset(a) + multiset(b);
  }

  /** `s.indexOf(pat, from)`: the first occurrence at or after `from`, or -1. */
  function IndexOfFrom(s: string, pat: string, from: nat): (r: int)
    requires from <= |s|
    ensures r == -1 || (from <= r <= |s| && OccursAt(s, pat, r))
    ensures forall j :: from <= j && (r == -1 || j < r) ==> !OccursAt(s, pat, j)
    decreases |s| - from
  {
    if OccursAt(s, pat, from) then from
    else if from == |s| then -1
    else IndexOfFrom(s, pat, from + 1)
  }

  /** `s.indexOf(pat)`: the first occurrence, or -1 exactly when there is none. */
  function IndexOf(s: string, pat: string): (r: int)
    ensures r < 0 <==> !Contains(s, pat)
    ensures r >= 0 ==> r <= |s| && OccursAt(s, pat, r)
    ensures forall j :: 0 <= j && (r < 0 || j < r) ==> !OccursAt(s, pat, j)
  {
    IndexOfFrom(s, pat, 0)
  }

  /** A one-character pattern occurs exactly at its character. */
  lemma OccursAtChar(s: string, c: char, i: int)
    ensures OccursAt(s, [c], i) <==> 0 <= i < |s| && s[i] == c
  {
    if 0 <= i < |s| { assert s[i..i + 1] == [s[i]]; }
  }

  /** A one-character pattern occurs exactly where its character does. */
  lemma ContainsChar(s: string, c: char)
    ensures Contains(s, [c]) <==> c in s
  {
    if c in s {
      var i :| 0 <= i < |s| && s[i] == c;
      assert OccursAt(s, [c], i);
    }
    if Contains(s, [c]) {
      var i :| 0 <= i <= |s| && OccursAt(s, [c], i);
      assert s[i] == s[i..i + 1][0];
    }
  }

  /** An occurrence with none before it is the first one. */
  lemma FirstOccurrence(s: string, pat: string, i: int)
    requires OccursAt(s, pat, i)
    requires forall j :: 0 <= j < i ==> !OccursAt(s, pat, j)
    ensures IndexOf(s, pat) == i
  {
    assert Contains(s, pat);
  }

  /** An occurrence inside a prefix is an occurrence in the whole string. */
  lemma OccursInPrefix(s: string, pat: string, n: nat, j: int)
    requires n <= |s| && OccursAt(s[..n], pat, j)
    ensures OccursAt(s, pat, j)
  {
    assert s[..n][j..j + |pat|] == s[j..j + |pat|];
  }

  /**
   * `s.split(sep)` with a non-empty string separator: the pieces between the
   * non-overlapping occurrences found from left to right.
   */
  function Split(s: string, sep: string): (parts: seq<string>)
    requires sep != []
    ensures |parts| >= 1
    ensures forall k :: 0 <= k < |parts| ==> !Contains(parts[k], sep)
    decreases |s|
  {
    var i := IndexOf(s, sep);
    if i < 0 then [s]
    else
      assert !Contains(s[..i], sep) by {
        forall j | 0 <= j <= i ensures !OccursAt(s[..i], sep, j) {
          if OccursAt(s[..i], sep, j) { OccursInPrefix(s, sep, i, j); }
        }
      }
      [s[..i]] + Split(s[i + |sep|..], sep)
  }

  /** `items.filter((x) => x.trim())`: the items that are not blank, in order. */
  function NonBlank(items: seq<string>): (r: seq<string>)
    ensures |r| <= |items|
    ensures forall i :: 0 <= i < |r| ==> !IsBlank(r[i])
    ensures forall x :: x in r ==> x in items
    ensures r == [] <==> forall i :: 0 <= i < |items| ==> IsBlank(items[i])
    decreases |items|
  {
    if items == [] then []
    else
      var init, last := items[..|items| - 1], items[|items| - 1];
      assert forall i :: 0 <= i < |init| ==> init[i] == items[i];
      NonBlank(init) + (if IsBlank(last) then [] else [last])
  }

  /** Filtering a concatenation filters each part: the kept items keep their order. */
  lemma {:induction false} NonBlankAppend(a: seq<string>, b: seq<string>)
    ensures NonBlank(a + b) == NonBlank(a) + NonBlank(b)
    decreases |b|
  {
    if b == [] {
      assert a + b == a;
    } else {
      var init, last := b[..|b| - 1], b[|b| - 1];
      assert a + b == (a + init) + [last];
      assert b == init + [last];
      NonBlankAppend(a, init);
      NonBlankSnoc(a + init, last);
      NonBlankSnoc(init, last);
    }
  }

  /** The last item is kept when it is not blank. */
  lemma NonBlankSnoc(init: seq<string>, last: string)
    ensures NonBlank(init + [last]) == NonBlank(init) + (if IsBlank(last) then [] else [last])
  {
    assert (init + [last])[..|init|] == init;
  }

  /** Every item that is not blank is kept, as often as it occurs; blank items are dropped. */
  lemma {:induction false} NonBlankCount(items: seq<string>)
    ensures forall x :: multiset(NonBlank(items))[x] == if IsBlank(x) then 0 else multiset(items)[x]
    decreases |items|
  {
    if items != [] {
      var init, last := items[..|items| - 1], items[|items| - 1];
      NonBlankCount(init);
      assert items == init + [last];
    }
  }

  /** `parts.join(sep)`. */
  function Join(parts: seq<string>, sep: string): string
    decreases |parts|
  {
    if |parts| == 0 then ""
    else if |parts| == 1 then parts[0]
    else parts[0] + sep + Join(parts[1..], sep)
  }

  /** Joining the pieces of a split with the same separator gives back the string. */
  lemma {:induction false} JoinSplit(s: string, sep: string)
    requires sep != []
    ensures Join(Split(s, sep), sep) == s
    decreases |s|
  {
    var i := IndexOf(s, sep);
    if i < 0 {
      assert Split(s, sep) == [s];
    } else {
      var rest := s[i + |sep|..];
      assert Split(s, sep) == [s[..i]] + Split(rest, sep);
      JoinSplit(rest, sep);
      JoinCons(s[..i], Split(rest, sep), sep);
      assert s[i..i + |sep|] == sep;
      assert s == s[..i] + sep + rest;
    }
  }

  /** Joining a non-empty list after a first piece puts one separator between them. */
  lemma JoinCons(a: string, parts: seq<string>, sep: string)
    requires |parts| >= 1
    ensures Join([a] + parts, sep) == a + sep + Join(parts, sep)
  {
    assert ([a] + parts)[1..] == parts;
  }

  /** Concatenation is associative. */
  lemma Assoc(a: string, b: string, c: string)
    ensures (a + b) + c == a + (b + c)
  {
  }

  /** A pattern cannot start inside a prefix that lacks its first character. */
  lemma NoOccurrenceBefore(a: string, rest: string, pat: string)
    requires pat != [] && pat[0] !in a
    ensures forall j :: 0 <= j < |a| ==> !OccursAt(a + rest, pat, j)
  {
  }

  /** A string without the separator splits into itself alone. */
  lemma SplitNone(s: string, sep: string)
    requires sep != [] && !Contains(s, sep)
    ensures Split(s, sep) == [s]
  {
  }

  /**
   * When the first occurrence of `sep` in `a + sep + x` is the one after `a`,
   * the first piece is `a` and the rest is the split of `x`.
   */
  lemma SplitFirst(a: string, sep: string, x: string)
    requires sep != []
    requires forall j :: 0 <= j < |a| ==> !OccursAt(a + sep + x, sep, j)
    ensures Split(a + sep + x, sep) == [a] + Split(x, sep)
  {
    var s := a + sep + x;
    assert OccursAt(s, sep, |a|) by { assert s[|a|..|a| + |sep|] == sep; }
    var i := IndexOf(s, sep);
    assert i == |a|;
    assert s[..i] == a;
    assert s[i + |sep|..] == x;
  }

  /** The first piece of a split is the text before the first occurrence of the separator. */
  lemma SplitHead(s: string, sep: string)
    requires sep != []
    ensures Contains(s, sep) ==> Split(s, sep)[0] == s[..IndexOf(s, sep)]
    ensures !Contains(s, sep) ==> Split(s, sep) == [s]
  {
  }

  /** The pieces after the first, joined back, are the text after the first occurrence. */
  lemma SplitTail(s: string, sep: string)
    requires sep != [] && Contains(s, sep)
    ensures Join(Split(s, sep)[1..], sep) == s[IndexOf(s, sep) + |sep|..]
  {
    var i := IndexOf(s, sep);
    JoinSplit(s[i + |sep|..], sep);
    assert Split(s, sep)[1..] == Split(s[i + |sep|..], sep);
  }

  /** ASCII upper-casing of one character. */
  function UpperChar(c: char): char {
    if 'a' <= c <= 'z' then (c as int - 32) as char else c
  }

  /** `s.toUpperCase()`, ASCII letters only. */
  function ToUpper(s: string): (r: string)
    ensures |r| == |s|
    ensures forall i :: 0 <= i < |s| ==> r[i] == UpperChar(s[i])
  {
    seq(|s|, i requires 0 <= i < |s| => UpperChar(s[i]))
  }

  /** `s.charAt(0).toUpperCase() + s.slice(1)`: only the first character changes. */
  function UpperFirst(s: string): (r: string)
    ensures |r| == |s|
    ensures s != [] ==> r[0] == UpperChar(s[0]) && r[1..] == s[1..]
  {
    if s == [] then "" else [UpperChar(s[0])] + s[1..]
  }

  /**
   * GetSubstitution of ECMA-262 for a string search pattern, which has no capture groups:
   * `$$` gives `$`, `$&` the matched text, `` $` `` the text before the match and
   * `$'` the text after it; every other `$` is kept as written.
   */
  function Substitute(template: string, matched: string, before: string, after: string): (r: string)
    ensures '$' !in template ==> r == template
    decreases |template|
  {
    if template == [] then ""
    else if |template| >= 2 && template[0] == '$' && template[1] in "$&`'" then
      var expansion := match template[1]
        case '$' => "$"
        case '&' => matched
        case '`' => before
        case _ => after;
      expansion + Substitute(template[2..], matched, before, after)
    else
      [template[0]] + Substitute(template[1..], matched, before, after)
  }

  /** Every `$` of the template is followed by a character that GetSubstitution does not expand after it. */
  predicate DollarsInert(t: string) {
    forall i :: 0 <= i < |t| && t[i] == '$' ==> i + 1 < |t| && t[i + 1] !in "$&`'"
  }

  /** A template whose every `$` is inert is inserted literally. */
  lemma {:induction false} SubstituteInert(template: string, matched: string, before: string, after: string)
    requires DollarsInert(template)
    ensures Substitute(template, matched, before, after) == template
    decreases |template|
  {
    if template != [] {
      var tail := template[1..];
      assert DollarsInert(tail) by {
        forall i | 0 <= i < |tail| && tail[i] == '$' ensures i + 1 < |tail| && tail[i + 1] !in "$&`'" {
          assert template[i + 1] == '$';
        }
      }
      SubstituteInert(tail, matched, before, after);
      assert template == [template[0]] + tail;
    }
  }

  /**
   * `s.replace(pattern, replacement)` with a string pattern: only the first occurrence
   * is replaced, by the expanded replacement; without an occurrence `s` is returned.
   */
  function ReplaceFirst(s: string, pattern: string, replacement: string): (r: string)
    ensures !Contains(s, pattern) ==> r == s
    ensures Contains(s, pattern) && '$' !in replacement ==>
      var i := IndexOf(s, pattern);
      r == s[..i] + replacement + s[i + |pattern|..]
  {
    var i := IndexOf(s, pattern);
    if i < 0 then s
    else s[..i] + Substitute(replacement, pattern, s[..i], s[i + |pattern|..]) + s[i + |pattern|..]
  }

  /** Two texts that agree on their first `n` characters have the same occurrences that end by `n`. */
  lemma OccursInAgreeingPrefix(a: string, b: string, pat: string, n: nat, j: int)
    requires n <= |a| && n <= |b| && a[..n] == b[..n]
    requires 0 <= j && j + |pat| <= n
    ensures OccursAt(a, pat, j) <==> OccursAt(b, pat, j)
  {
    assert a[j..j + |pat|] == a[..n][j..j + |pat|];
    assert b[j..j + |pat|] == b[..n][j..j + |pat|];
  }

  /** Two texts that agree up to the end of a first occurrence have it as their first occurrence. */
  lemma SamePrefixSameFirst(a: string, b: string, pat: string, i: int)
    requires IndexOf(a, pat) == i >= 0
    requires i + |pat| <= |b| && b[..i + |pat|] == a[..i + |pat|]
    ensures IndexOf(b, pat) == i
  {
    var n := i + |pat|;
    OccursInAgreeingPrefix(a, b, pat, n, i);
    forall j | 0 <= j < i ensures !OccursAt(b, pat, j) {
      OccursInAgreeingPrefix(a, b, pat, n, j);
    }
    assert Contains(b, pat);
  }

  /** Expansion leaves a `$`-free head of the template as it is. */
  lemma {:induction false} SubstitutePrefix(head: string, tail: string, matched: string, before: string, after: string)
    requires '$' !in head
    ensures Substitute(head + tail, matched, before, after)
         == head + Substitute(tail, matched, before, after)
    decreases |head|
  {
    if head != [] {
      assert head[0] in head;
      assert (head + tail)[0] == head[0];
      assert (head + tail)[1..] == head[1..] + tail;
      SubstitutePrefix(head[1..], tail, matched, before, after);
      assert Substitute(head + tail, matched, before, after)
          == [head[0]] + Substitute(head[1..] + tail, matched, before, after);
      assert head == [head[0]] + head[1..];
    } else {
      assert head + tail == tail;
    }
  }

  /**
   * Replacing the first occurrence of a `$`-free pattern by the pattern followed by
   * more text keeps the text up to and including that occurrence, which stays the first.
   */
  lemma ReplaceKeepsPrefix(s: string, pat: string, tail: string)
    requires Contains(s, pat) && '$' !in pat
    ensures var i := IndexOf(s, pat);
      var r := ReplaceFirst(s, pat, pat + tail);
      i + |pat| <= |r| && r[..i + |pat|] == s[..i + |pat|] && IndexOf(r, pat) == i
  {
    var i := IndexOf(s, pat);
    var head := s[..i + |pat|];
    var rest := ReplaceWithPrefix(s, pat, tail);
    var r := ReplaceFirst(s, pat, pat + tail);
    assert r[..|head|] == head;
    SamePrefixSameFirst(s, r, pat, i);
  }

  /** Replacing by the `$`-free pattern and more text keeps everything up to the end of the occurrence. */
  lemma ReplaceWithPrefix(s: string, pat: string, tail: string) returns (rest: string)
    requires Contains(s, pat) && '$' !in pat
    ensures var i := IndexOf(s, pat);
      ReplaceFirst(s, pat, pat + tail) == s[..i + |pat|] + rest
  {
    var i := IndexOf(s, pat);
    var before, after := s[..i], s[i + |pat|..];
    var expanded := Substitute(tail, pat, before, after);
    rest := expanded + after;
    ReplaceSplice(s, pat, pat + tail);
    SubstitutePrefix(pat, tail, pat, before, after);
    ConcatRegroup(before, pat, expanded, after);
    OccurrencePrefix(s, pat, i);
  }

  /** The text up to the end of an occurrence is the text before it and the pattern. */
  lemma OccurrencePrefix(s: string, pat: string, i: int)
    requires OccursAt(s, pat, i)
    ensures s[..i + |pat|] == s[..i] + pat
  {
  }

  /** Moving the brackets of a four-part concatenation. */
  lemma ConcatRegroup(a: string, b: string, c: string, d: string)
    ensures a + (b + c) + d == (a + b) + (c + d)
  {
  }

  /** Where the first occurrence is, `replace` splices in the expanded replacement. */
  lemma ReplaceSplice(s: string, pat: string, replacement: string)
    requires Contains(s, pat)
    ensures var i := IndexOf(s, pat);
      ReplaceFirst(s, pat, replacement)
        == s[..i] + Substitute(replacement, pat, s[..i], s[i + |pat|..]) + s[i + |pat|..]
  {
  }
}
