/** The JavaScript string and array primitives the importer relies on,
    written out as explicit functions on `seq<char>`. */
module Text {
  import opened Wrappers

  /** The ECMAScript WhiteSpace and LineTerminator code points: exactly what
      `String.prototype.trim` removes and what the regular-expression class
      `\s` matches. */
  predicate IsSpace(c: char) {
    || c == '\t' || c == '\n' || c == '\U{000B}' || c == '\U{000C}' || c == '\r'
    || c == ' ' || c == '\U{00A0}' || c == '\U{1680}'
    || ('\U{2000}' <= c <= '\U{200A}')
    || c == '\U{2028}' || c == '\U{2029}' || c == '\U{202F}' || c == '\U{205F}'
    || c == '\U{3000}' || c == '\U{FEFF}'
  }

  /** The characters the regular-expression `.` does not match (no `s` flag). */
  predicate IsLineTerminator(c: char) {
    c == '\n' || c == '\r' || c == '\U{2028}' || c == '\U{2029}'
  }

  /** `Array.prototype.indexOf` / `String.prototype.indexOf` for one element:
      the position of the first occurrence; None stands for -1. */
  function IndexOf<T(==)>(s: seq<T>, x: T): (r: Option<nat>)
    ensures r.None? <==> x !in s
    ensures r.Some? ==> r.value < |s| && s[r.value] == x && x !in s[..r.value]
  {
    if |s| == 0 then None
    else if s[0] == x then Some(0)
    else match IndexOf(s[1..], x)
      case None => None
      case Some(k) =>
        assert s[..k + 1] == [s[0]] + s[1..][..k];
        Some(k + 1)
  }

  /** The number of whitespace characters `s` starts with. */
  function LeadingSpaces(s: string): (n: nat)
    ensures n <= |s|
    ensures forall i | 0 <= i < n :: IsSpace(s[i])
    ensures n < |s| ==> !IsSpace(s[n])
  {
    if |s| > 0 && IsSpace(s[0]) then 1 + LeadingSpaces(s[1..]) else 0
  }

  /** Trailing whitespace removed. */
  function TrimEnd(s: string): (r: string)
    ensures |r| <= |s| && r == s[..|r|]
    ensures forall i | |r| <= i < |s| :: IsSpace(s[i])
    ensures |r| > 0 ==> !IsSpace(r[|r| - 1])
  {
    if |s| > 0 && IsSpace(s[|s| - 1]) then TrimEnd(s[..|s| - 1]) else s
  }

  /** `String.prototype.trim`: the piece of `s` that starts after its leading
      whitespace, has no whitespace at either end, and keeps every
      non-whitespace character of `s`. */
  function Trim(s: string): (r: string)
    ensures LeadingSpaces(s) + |r| <= |s| && r == s[LeadingSpaces(s)..LeadingSpaces(s) + |r|]
    ensures |r| > 0 ==> !IsSpace(r[0]) && !IsSpace(r[|r| - 1])
    ensures forall i | 0 <= i < |s| && !IsSpace(s[i]) :: LeadingSpaces(s) <= i < LeadingSpaces(s) + |r|
  {
    TrimEnd(s[LeadingSpaces(s)..])
  }

  /** Only a trimmed string has nothing to trim. */
  lemma TrimIdentity(s: string)
    requires |s| > 0 ==> !IsSpace(s[0]) && !IsSpace(s[|s| - 1])
    ensures Trim(s) == s
  {
  }

  /** A character absent from `s` is absent from `Trim(s)`. */
  lemma TrimKeepsAbsence(s: string, x: char)
    requires x !in s
    ensures x !in Trim(s)
  {
  }

  /** `s.split(d)` for a one-character separator `d`. */
  function Split(s: string, d: char): (parts: seq<string>)
    ensures |parts| >= 1
    ensures forall k | 0 <= k < |parts| :: d !in parts[k]
    decreases |s|
  {
    match IndexOf(s, d)
    case None => [s]
    case Some(k) => [s[..k]] + Split(s[k + 1..], d)
  }

  /** Joining the parts of a split with the separator gives the text back. */
  lemma {:induction false} JoinSplit(s: string, d: char)
    ensures JoinWith(Split(s, d), [d]) == s
    decreases |s|
  {
    match IndexOf(s, d)
    case None =>
    case Some(k) =>
      JoinSplit(s[k + 1..], d);
      var parts := Split(s, d);
      assert parts[1..] == Split(s[k + 1..], d);
      assert s == s[..k] + [d] + s[k + 1..];
  }

  /** `parts.join(sep)`. */
  function JoinWith(parts: seq<string>, sep: string): string
    requires |parts| >= 1
  {
    if |parts| == 1 then parts[0] else parts[0] + sep + JoinWith(parts[1..], sep)
  }

  /** Splitting a join of separator-free parts gives the parts back: together
      with the contract of `Split`, the parts of `Split(s, d)` are the only
      separator-free pieces that join back to `s`. */
  lemma {:induction false} SplitJoin(parts: seq<string>, d: char)
    requires |parts| >= 1
    requires forall k | 0 <= k < |parts| :: d !in parts[k]
    ensures Split(JoinWith(parts, [d]), d) == parts
    decreases |parts|
  {
    if |parts| > 1 {
      SplitAtFirst(parts[0], JoinWith(parts[1..], [d]), d);
      SplitJoin(parts[1..], d);
      assert parts == [parts[0]] + parts[1..];
    }
  }

  /** The split of a text whose first separator follows the piece `p`. */
  lemma SplitAtFirst(p: string, rest: string, d: char)
    requires d !in p
    ensures Split(p + [d] + rest, d) == [p] + Split(rest, d)
  {
    var s := p + [d] + rest;
    assert s[|p|] == d && s[..|p|] == p;
    assert IndexOf(s, d) == Some(|p|);
    assert s[|p| + 1..] == rest;
  }

  /** `s.split(/\r?\n/)`: the leftmost match of `\r?\n` sits at the first
      line feed, starting one character earlier when a carriage return
      precedes it. */
  function SplitLines(s: string): (lines: seq<string>)
    ensures |lines| >= 1
    ensures forall k | 0 <= k < |lines| :: '\n' !in lines[k]
    decreases |s|
  {
    match IndexOf(s, '\n')
    case None => [s]
    case Some(k) =>
      var end := if k > 0 && s[k - 1] == '\r' then k - 1 else k;
      assert '\n' !in s[..end] by { assert s[..end] == s[..k][..end]; }
      [s[..end]] + SplitLines(s[k + 1..])
  }

  /** `.filter(Boolean)` on an array of strings: drops the empty ones. */
  function NonEmpty(lines: seq<string>): (r: seq<string>)
    ensures |r| <= |lines|
    ensures forall k | 0 <= k < |r| :: r[k] != "" && r[k] in lines
    ensures forall k | 0 <= k < |lines| :: lines[k] != "" ==> lines[k] in r
    ensures |lines| == 1 ==> r == if lines[0] == "" then [] else lines
  {
    if |lines| == 0 then []
    else (if lines[0] == "" then [] else [lines[0]]) + NonEmpty(lines[1..])
  }

  /** The filter works block by block, so the kept lines stay in their
      order and keep their repetitions. */
  lemma {:induction false} NonEmptyConcat(a: seq<string>, b: seq<string>)
    ensures NonEmpty(a + b) == NonEmpty(a) + NonEmpty(b)
  {
    if |a| == 0 {
      assert a + b == b;
    } else {
      assert (a + b)[1..] == a[1..] + b;
      NonEmptyConcat(a[1..], b);
    }
  }

  /** `cell.replace(/^"|"$/g, '')`: one double quote removed from the start
      and one from the end, when present. */
  function StripQuotes(s: string): (r: string)
    ensures |r| <= |s| <= |r| + 2
    ensures r == s[..|r|] || (|r| < |s| && r == s[1..|r| + 1])
    ensures |s| > 0 && s[0] == '"' ==> |r| < |s| && r == s[1..|r| + 1]
    ensures |s| > 0 && s[0] != '"' ==> r == s[..|r|]
  {
    var a := if |s| > 0 && s[0] == '"' then s[1..] else s;
    if |a| > 0 && a[|a| - 1] == '"' then a[..|a| - 1] else a
  }

  /** A quoted cell loses exactly its enclosing quotes, whatever it holds. */
  lemma StripQuotesOfQuoted(x: string)
    ensures StripQuotes("\"" + x + "\"") == x
  {
    var s := "\"" + x + "\"";
    assert s[1..] == x + "\"";
    assert (x + "\"")[..|x|] == x;
  }

  /** A cell with only an opening quote loses just that quote. */
  lemma StripQuotesOfOpening(x: string)
    requires |x| > 0 ==> x[|x| - 1] != '"'
    ensures StripQuotes("\"" + x) == x
  {
    assert ("\"" + x)[1..] == x;
  }

  /** A cell with only a closing quote loses just that quote. */
  lemma StripQuotesOfClosing(x: string)
    requires |x| > 0 ==> x[0] != '"'
    ensures StripQuotes(x + "\"") == x
  {
    assert (x + "\"")[..|x|] == x;
  }

  /** A cell that neither starts nor ends with a double quote is left alone. */
  lemma StripQuotesOfBare(x: string)
    requires |x| > 0 ==> x[0] != '"' && x[|x| - 1] != '"'
    ensures StripQuotes(x) == x
  {
  }

  /** ASCII upper case to lower case. */
  function LowerChar(c: char): char {
    if 'A' <= c <= 'Z' then (c as int + 32) as char else c
  }

  /** `String.prototype.toLowerCase`, restricted to ASCII letters. */
  function ToLower(s: string): (r: string)
    ensures |r| == |s|
    ensures forall i | 0 <= i < |s| :: r[i] == LowerChar(s[i]) && !('A' <= r[i] <= 'Z')
  {
    seq(|s|, i requires 0 <= i < |s| => LowerChar(s[i]))
  }

  /** Every character `a` replaced by `b`. */
  function Replace(s: string, a: char, b: char): (r: string)
    ensures |r| == |s|
    ensures forall i | 0 <= i < |s| :: r[i] == (if s[i] == a then b else s[i])
  {
    seq(|s|, i requires 0 <= i < |s| => if s[i] == a then b else s[i])
  }

  /** `Replace` applied to every string of a sequence. */
  function ReplaceEach(ss: seq<string>, a: char, b: char): (r: seq<string>)
    ensures |r| == |ss|
    ensures forall k | 0 <= k < |ss| :: r[k] == Replace(ss[k], a, b)
  {
    seq(|ss|, k requires 0 <= k < |ss| => Replace(ss[k], a, b))
  }

  lemma ReplaceAbsent(s: string, a: char, b: char)
    requires a !in s
    ensures Replace(s, a, b) == s
  {
  }

  /** Two strings of the same length with whitespace at the same positions. */
  ghost predicate SameSpaces(s: string, t: string) {
    |s| == |t| && forall i | 0 <= i < |s| :: IsSpace(s[i]) <==> IsSpace(t[i])
  }

  /** Where trimming cuts depends only on where the whitespace is. */
  lemma TrimCutsAlike(s: string, t: string)
    requires SameSpaces(s, t)
    ensures LeadingSpaces(s) == LeadingSpaces(t)
    ensures |Trim(s)| == |Trim(t)|
  {
  }

  /** Replacing one non-whitespace character by another commutes with `trim`. */
  lemma TrimReplace(s: string, a: char, b: char)
    requires !IsSpace(a) && !IsSpace(b)
    ensures Trim(Replace(s, a, b)) == Replace(Trim(s), a, b)
  {
    TrimCutsAlike(s, Replace(s, a, b));
  }

  /** Replacing a character by one the string lacks commutes with splitting:
      `l.split(a)` and `l` with every `a` turned into `b`, split on `b`, give
      the same cells. */
  lemma {:induction false} SplitReplace(l: string, a: char, b: char)
    requires a != b && b !in l
    ensures Split(Replace(l, a, b), b) == Split(l, a)
    decreases |l|
  {
    var l' := Replace(l, a, b);
    match IndexOf(l, a)
    case None =>
      ReplaceAbsent(l, a, b);
    case Some(k) =>
      assert l'[..k] == l[..k];
      assert IndexOf(l', b) == Some(k);
      assert l'[k + 1..] == Replace(l[k + 1..], a, b);
      SplitReplace(l[k + 1..], a, b);
  }

  /** Replacing characters other than carriage return and line feed commutes
      with the line split. */
  lemma {:induction false} SplitLinesReplace(s: string, a: char, b: char)
    requires a != '\n' && a != '\r' && b != '\n' && b != '\r'
    ensures SplitLines(Replace(s, a, b)) == ReplaceEach(SplitLines(s), a, b)
    decreases |s|
  {
    match IndexOf(s, '\n')
    case None =>
      assert '\n' !in Replace(s, a, b);
    case Some(k) =>
      var end := if k > 0 && s[k - 1] == '\r' then k - 1 else k;
      SplitLinesReplaceStep(s, a, b, k, end);
      SplitLinesReplace(s[k + 1..], a, b);
      ReplaceEachCons(s[..end], SplitLines(s[k + 1..]), a, b);
  }

  /** The first line of the replaced text is the replaced first line. */
  lemma SplitLinesReplaceStep(s: string, a: char, b: char, k: nat, end: nat)
    requires a != '\n' && a != '\r' && b != '\n' && b != '\r'
    requires IndexOf(s, '\n') == Some(k)
    requires end == if k > 0 && s[k - 1] == '\r' then k - 1 else k
    ensures SplitLines(s) == [s[..end]] + SplitLines(s[k + 1..])
    ensures SplitLines(Replace(s, a, b)) == [Replace(s[..end], a, b)] + SplitLines(Replace(s[k + 1..], a, b))
  {
    var s' := Replace(s, a, b);
    ReplacePrefix(s, a, b, k);
    assert IndexOf(s', '\n') == Some(k);
    assert k > 0 ==> (s'[k - 1] == '\r' <==> s[k - 1] == '\r');
    assert SplitLines(s') == [s'[..end]] + SplitLines(s'[k + 1..]);
    ReplacePrefix(s, a, b, end);
    ReplaceSuffix(s, a, b, k + 1);
  }

  lemma ReplaceEachCons(x: string, rest: seq<string>, a: char, b: char)
    ensures ReplaceEach([x] + rest, a, b) == [Replace(x, a, b)] + ReplaceEach(rest, a, b)
  {
  }

  lemma ReplacePrefix(s: string, a: char, b: char, j: nat)
    requires j <= |s|
    ensures Replace(s, a, b)[..j] == Replace(s[..j], a, b)
  {
  }

  lemma ReplaceSuffix(s: string, a: char, b: char, i: nat)
    requires i <= |s|
    ensures Replace(s, a, b)[i..] == Replace(s[i..], a, b)
  {
  }

  /** Dropping empty lines commutes with a replacement, which keeps lengths. */
  lemma {:induction false} NonEmptyReplace(ls: seq<string>, a: char, b: char)
    ensures NonEmpty(ReplaceEach(ls, a, b)) == ReplaceEach(NonEmpty(ls), a, b)
    decreases |ls|
  {
    if |ls| > 0 {
      assert ReplaceEach(ls, a, b)[1..] == ReplaceEach(ls[1..], a, b);
      NonEmptyReplace(ls[1..], a, b);
    }
  }

  /** A character absent from `s` is absent from each of its lines. */
  lemma {:induction false} SplitLinesKeepAbsence(s: string, x: char)
    requires x !in s
    ensures forall k | 0 <= k < |SplitLines(s)| :: x !in SplitLines(s)[k]
    decreases |s|
  {
    match IndexOf(s, '\n')
    case None =>
    case Some(k) =>
      SplitLinesKeepAbsence(s[k + 1..], x);
  }

  /** Text written with CRLF line endings splits into the lines it was made of. */
  lemma {:induction false} SplitCrLfJoin(lines: seq<string>)
    requires |lines| >= 1
    requires forall k | 0 <= k < |lines| :: '\n' !in lines[k]
    ensures SplitLines(JoinWith(lines, "\r\n")) == lines
    decreases |lines|
  {
    if |lines| > 1 {
      SplitLinesAtCrLf(lines[0], JoinWith(lines[1..], "\r\n"));
      SplitCrLfJoin(lines[1..]);
      assert lines == [lines[0]] + lines[1..];
    }
  }

  /** The line split of a text whose first line `p` ends in CRLF. */
  lemma SplitLinesAtCrLf(p: string, rest: string)
    requires '\n' !in p
    ensures SplitLines(p + "\r\n" + rest) == [p] + SplitLines(rest)
  {
    var s := p + "\r\n" + rest;
    assert s[|p| + 1] == '\n' && s[|p|] == '\r';
    assert s[..|p| + 1] == p + "\r";
    assert IndexOf(s, '\n') == Some(|p| + 1);
    assert s[..|p|] == p;
    assert s[|p| + 2..] == rest;
  }

  /** Text written with LF line endings splits into the lines it was made of,
      provided no line but the last ends with a carriage return. */
  lemma {:induction false} SplitLfJoin(lines: seq<string>)
    requires |lines| >= 1
    requires forall k | 0 <= k < |lines| :: '\n' !in lines[k]
    requires forall k | 0 <= k < |lines| - 1 :: lines[k] == [] || lines[k][|lines[k]| - 1] != '\r'
    ensures SplitLines(JoinWith(lines, "\n")) == lines
    decreases |lines|
  {
    if |lines| > 1 {
      SplitLinesAtLf(lines[0], JoinWith(lines[1..], "\n"));
      SplitLfJoin(lines[1..]);
      assert lines == [lines[0]] + lines[1..];
    }
  }

  /** The line split of a text whose first line `p` ends in a bare LF. */
  lemma SplitLinesAtLf(p: string, rest: string)
    requires '\n' !in p && (p == [] || p[|p| - 1] != '\r')
    ensures SplitLines(p + "\n" + rest) == [p] + SplitLines(rest)
  {
    var s := p + "\n" + rest;
    assert s[|p|] == '\n' && s[..|p|] == p;
    assert IndexOf(s, '\n') == Some(|p|);
    assert s[|p| + 1..] == rest;
  }
}
