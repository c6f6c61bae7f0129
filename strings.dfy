/** The string operations of Ruby and JavaScript that the models rely on, on `seq<char>`.
    Case mapping is ASCII only. */
module Strings {
  import opened Wrappers

  // ---------------------------------------------------------------------------
  // Character classes

  /** Ruby's and C's ASCII whitespace: space, tab, newline, vertical tab, form feed, return. */
  predicate IsSpace(c: char) {
    c == ' ' || c == '\t' || c == '\n' || c == '\U{000B}' || c == '\U{000C}' || c == '\r'
  }

  /** The characters Ruby's String#strip removes: whitespace and NUL. */
  predicate IsStripped(c: char) {
    c == '\0' || IsSpace(c)
  }

  predicate IsDigit(c: char) {
    '0' <= c <= '9'
  }

  predicate AllDigits(s: string) {
    forall i :: 0 <= i < |s| ==> IsDigit(s[i])
  }

  /** Rails' `blank?` on a string: empty or whitespace only. */
  predicate Blank(s: string) {
    forall k :: 0 <= k < |s| ==> IsSpace(s[k])
  }

  /** Rails' `present?` on a nullable string column: not nil and not blank. */
  predicate Present(v: Option<string>) {
    v.Some? && !Blank(v.value)
  }

  predicate NoSpace(w: string) {
    forall i :: 0 <= i < |w| ==> !IsSpace(w[i])
  }

  function LowerChar(c: char): char {
    if 'A' <= c <= 'Z' then (c as int + 32) as char else c
  }

  function UpperChar(c: char): char {
    if 'a' <= c <= 'z' then (c as int - 32) as char else c
  }

  /** Ruby String#downcase and JavaScript toLowerCase, restricted to ASCII letters. */
  function Downcase(s: string): (r: string)
    ensures |r| == |s| && forall i :: 0 <= i < |s| ==> r[i] == LowerChar(s[i])
  {
    seq(|s|, i requires 0 <= i < |s| => LowerChar(s[i]))
  }

  /** JavaScript toUpperCase, restricted to ASCII letters. */
  function Upcase(s: string): (r: string)
    ensures |r| == |s| && forall i :: 0 <= i < |s| ==> r[i] == UpperChar(s[i])
  {
    seq(|s|, i requires 0 <= i < |s| => UpperChar(s[i]))
  }

  lemma DowncaseIdempotent(s: string)
    ensures Downcase(Downcase(s)) == Downcase(s)
  {
  }

  /** Ruby String#tr with one character on each side. */
  function Tr(s: string, from: char, to: char): (r: string)
    ensures |r| == |s|
    ensures forall i :: 0 <= i < |s| ==> r[i] == if s[i] == from then to else s[i]
  {
    seq(|s|, i requires 0 <= i < |s| => if s[i] == from then to else s[i])
  }

  // ---------------------------------------------------------------------------
  // Searching

  predicate IsPrefix(p: string, s: string) {
    |p| <= |s| && s[..|p|] == p
  }

  /** Ruby String#include? and JavaScript String.prototype.includes. */
  predicate Contains(s: string, needle: string)
  {
    IsPrefix(needle, s) || (s != [] && Contains(s[1..], needle))
  }

  /** The position of the first `c` in `s` (Ruby String#index, JavaScript indexOf). */
  function IndexOf(s: string, c: char): (i: nat)
    requires c in s
    ensures i < |s| && s[i] == c && c !in s[..i]
  {
    if s[0] == c then 0 else 1 + IndexOf(s[1..], c)
  }

  // ---------------------------------------------------------------------------
  // Stripping

  function LStrip(s: string): (r: string)
    ensures |r| <= |s| && r == s[|s| - |r|..]
    ensures forall i :: 0 <= i < |s| - |r| ==> IsStripped(s[i])
    ensures r == [] || !IsStripped(r[0])
  {
    if s != [] && IsStripped(s[0]) then
      var r := LStrip(s[1..]);
      assert s[1..][|s[1..]| - |r|..] == s[|s| - |r|..];
      r
    else s
  }

  function RStrip(s: string): (r: string)
    ensures |r| <= |s| && r == s[..|r|]
    ensures forall i :: |r| <= i < |s| ==> IsStripped(s[i])
    ensures r == [] || !IsStripped(r[|r| - 1])
  {
    if s != [] && IsStripped(s[|s| - 1]) then RStrip(s[..|s| - 1]) else s
  }

  /** Ruby String#strip: leading and trailing whitespace and NUL removed. */
  function Strip(s: string): (r: string)
    ensures |r| <= |s|
    ensures r == [] || (!IsStripped(r[0]) && !IsStripped(r[|r| - 1]))
  {
    RStrip(LStrip(s))
  }

  lemma LStripPast(c: char, t: string)
    requires IsStripped(c)
    ensures LStrip([c] + t) == LStrip(t)
  {
    assert ([c] + t)[1..] == t;
  }

  lemma LStripNone(t: string)
    requires t != [] && !IsStripped(t[0])
    ensures LStrip(t) == t
  {
  }

  lemma RStripNone(t: string)
    requires t != [] && !IsStripped(t[|t| - 1])
    ensures RStrip(t) == t
  {
  }

  lemma RStripPast(t: string, c: char)
    requires IsStripped(c)
    ensures RStrip(t + [c]) == RStrip(t)
  {
    assert (t + [c])[..|t|] == t;
  }

  /** A string with nothing to strip at either end is its own strip. */
  lemma StripFixedPoint(s: string)
    requires s == [] || (!IsStripped(s[0]) && !IsStripped(s[|s| - 1]))
    ensures Strip(s) == s
  {
  }

  lemma StripIdempotent(s: string)
    ensures Strip(Strip(s)) == Strip(s)
  {
    StripFixedPoint(Strip(s));
  }

  // ---------------------------------------------------------------------------
  // Splitting and joining

  /** Ruby Array#join(sep) and JavaScript Array.prototype.join(sep) over strings. */
  function Join(ws: seq<string>, sep: string): string
  {
    if ws == [] then [] else if |ws| == 1 then ws[0] else ws[0] + sep + Join(ws[1..], sep)
  }

  /** The length of the leading run of non-space characters. */
  function WordLength(s: string): (n: nat)
    ensures n <= |s|
    ensures forall i :: 0 <= i < n ==> !IsSpace(s[i])
    ensures n < |s| ==> IsSpace(s[n])
  {
    if s == [] || IsSpace(s[0]) then 0 else 1 + WordLength(s[1..])
  }

  /** Ruby String#split(' '): the maximal runs of non-space characters, in order;
      leading, trailing and repeated whitespace produce no empty fields. */
  function Words(s: string): (ws: seq<string>)
    ensures forall w :: w in ws ==> w != [] && NoSpace(w)
    decreases |s|
  {
    if s == [] then []
    else if IsSpace(s[0]) then Words(s[1..])
    else
      var n := WordLength(s);
      [s[..n]] + Words(s[n..])
  }

  lemma {:induction false} WordLengthOfWord(w: string, t: string)
    requires NoSpace(w)
    requires t == [] || IsSpace(t[0])
    ensures WordLength(w + t) == |w|
  {
    if w != [] {
      assert (w + t)[1..] == w[1..] + t;
      WordLengthOfWord(w[1..], t);
    }
  }

  /** Splitting a space-joined list of non-empty, space-free words gives the words back. */
  lemma {:induction false} WordsOfJoin(ws: seq<string>)
    requires forall w :: w in ws ==> w != [] && NoSpace(w)
    ensures Words(Join(ws, " ")) == ws
  {
    if ws == [] {
    } else if |ws| == 1 {
      var w := ws[0];
      WordLengthOfWord(w, []);
      assert w + [] == w;
      assert w[|w|..] == [];
    } else {
      var w, rest := ws[0], Join(ws[1..], " ");
      var s := w + " " + rest;
      assert s == w + (" " + rest);
      WordLengthOfWord(w, " " + rest);
      assert s[..|w|] == w;
      assert s[|w|..] == " " + rest;
      assert (" " + rest)[1..] == rest;
      assert forall v :: v in ws[1..] ==> v in ws;
      WordsOfJoin(ws[1..]);
    }
  }

  /** JavaScript String.prototype.split(c) for a one-character separator: every field,
      empty ones included. */
  function Split(s: string, c: char): (parts: seq<string>)
    ensures |parts| >= 1
    ensures forall p :: p in parts ==> c !in p
    decreases |s|
  {
    if c !in s then [s]
    else
      var i := IndexOf(s, c);
      [s[..i]] + Split(s[i + 1..], c)
  }

  /** The first separator, wherever it is, ends the first field. */
  lemma SplitAt(s: string, c: char, i: nat)
    requires i < |s| && s[i] == c && c !in s[..i]
    ensures Split(s, c) == [s[..i]] + Split(s[i + 1..], c)
  {
  }

  lemma JoinCons(w: string, rest: seq<string>, sep: string)
    requires rest != []
    ensures Join([w] + rest, sep) == w + sep + Join(rest, sep)
  {
    var ws := [w] + rest;
    assert ws[0] == w && ws[1..] == rest;
  }

  /** Joining the fields with the separator restores the string. */
  lemma {:induction false} JoinSplit(s: string, c: char)
    ensures Join(Split(s, c), [c]) == s
    decreases |s|
  {
    if c in s {
      var i := IndexOf(s, c);
      var head, tail := s[..i], s[i + 1..];
      var rest := Split(tail, c);
      assert Split(s, c) == [head] + rest;
      assert Join(rest, [c]) == tail by {
        JoinSplit(tail, c);
      }
      assert Join([head] + rest, [c]) == head + [c] + tail by {
        JoinCons(head, rest, [c]);
      }
      assert head + [c] + tail == s;
    } else {
      assert Split(s, c) == [s];
    }
  }

  // ---------------------------------------------------------------------------
  // Replacing

  /** JavaScript String.prototype.replace(a, b) with a one-character string pattern:
      only the first occurrence is replaced. */
  function ReplaceFirst(s: string, a: char, b: char): (r: string)
    ensures |r| == |s|
    ensures a !in s ==> r == s
  {
    if s == [] then []
    else if s[0] == a then [b] + s[1..]
    else [s[0]] + ReplaceFirst(s[1..], a, b)
  }

  /** The replacement lands on the first occurrence and nowhere else. */
  lemma ReplaceFirstAt(s: string, a: char, b: char)
    requires a in s
    ensures ReplaceFirst(s, a, b) == s[..IndexOf(s, a)] + [b] + s[IndexOf(s, a) + 1..]
  {
    ReplaceFirstAtIndex(s, a, b, IndexOf(s, a));
  }

  lemma {:induction false} ReplaceFirstAtIndex(s: string, a: char, b: char, i: nat)
    requires i < |s| && s[i] == a && a !in s[..i]
    ensures ReplaceFirst(s, a, b) == s[..i] + [b] + s[i + 1..]
  {
    if i == 0 {
      assert s[..0] == [];
    } else {
      var t := s[1..];
      assert s[0] != a by {
        assert s[0] == s[..i][0];
      }
      assert ReplaceFirst(t, a, b) == t[..i - 1] + [b] + t[i..] by {
        assert t[i - 1] == a;
        assert a !in t[..i - 1] by {
          assert t[..i - 1] == s[..i][1..];
        }
        ReplaceFirstAtIndex(t, a, b, i - 1);
      }
      assert ReplaceFirst(s, a, b) == [s[0]] + ReplaceFirst(t, a, b);
      assert s[..i] == [s[0]] + t[..i - 1];
      assert s[i + 1..] == t[i..];
    }
  }

  /** The same replacement seen after a fixed prefix. */
  lemma PrefixReplaceFirst(p: string, s: string, a: char, b: char)
    requires a in s
    ensures p + ReplaceFirst(s, a, b) == p + s[..IndexOf(s, a)] + [b] + s[IndexOf(s, a) + 1..]
  {
    var i := IndexOf(s, a);
    var x, y := s[..i], s[i + 1..];
    assert ReplaceFirst(s, a, b) == x + [b] + y by {
      ReplaceFirstAt(s, a, b);
    }
    assert p + (x + [b] + y) == p + x + [b] + y;
  }

  /** Ruby String#gsub with a plain string pattern and replacement: every non-overlapping
      occurrence, scanning left to right. */
  function ReplaceAll(s: string, pat: string, rep: string): string
    requires pat != []
    decreases |s|
  {
    if |s| < |pat| then s
    else if s[..|pat|] == pat then rep + ReplaceAll(s[|pat|..], pat, rep)
    else [s[0]] + ReplaceAll(s[1..], pat, rep)
  }

  /** Where the pattern cannot start, nothing is replaced. */
  lemma {:induction false} ReplaceAllAbsent(s: string, pat: string, rep: string)
    requires pat != [] && pat[0] !in s
    ensures ReplaceAll(s, pat, rep) == s
    decreases |s|
  {
    if |s| >= |pat| {
      assert s[0] != pat[0];
      ReplaceAllAbsent(s[1..], pat, rep);
    }
  }

  /** A single occurrence preceded by text where the pattern cannot start is replaced. */
  lemma {:induction false} ReplaceAllAfter(pre: string, pat: string, rep: string, post: string)
    requires pat != [] && pat[0] !in pre
    ensures ReplaceAll(pre + pat + post, pat, rep) == pre + rep + ReplaceAll(post, pat, rep)
    decreases |pre|
  {
    var s := pre + pat + post;
    if pre == [] {
      assert s == pat + post;
      assert s[..|pat|] == pat && s[|pat|..] == post;
    } else {
      assert s[0] == pre[0] != pat[0];
      assert s[..|pat|] != pat;
      assert s[1..] == pre[1..] + pat + post;
      ReplaceAllAfter(pre[1..], pat, rep, post);
    }
  }

  /** Deleting every occurrence of a one-character pattern leaves none. */
  lemma {:induction false} ReplaceAllRemoves(s: string, c: char)
    ensures c !in ReplaceAll(s, [c], [])
    decreases |s|
  {
    if |s| >= 1 {
      ReplaceAllRemoves(s[1..], c);
      assert s[1..] == s[|[c]|..];
    }
  }

  /** A string without the character is unchanged by deleting it. */
  lemma ReplaceAllRemovesNothing(s: string, c: char)
    requires c !in s
    ensures ReplaceAll(s, [c], []) == s
  {
    ReplaceAllAbsent(s, [c], []);
  }

  // ---------------------------------------------------------------------------
  // gsub with a replacement string

  /** Ruby raises on a `\k<` in a replacement when the pattern is a string, which has no
      named groups: IndexError when a `>` closes the name, RuntimeError when none does. */
  datatype GsubError = UndefinedGroupName(name: string) | InvalidGroupNameFormat

  /** A successful text with `p` in front; a failure as it is. */
  function PrependOk(p: string, r: Result<string, GsubError>): (q: Result<string, GsubError>)
    ensures q.Success? <==> r.Success?
    ensures q.Success? ==> q.value == p + r.value
  {
    if r.Success? then Success(p + r.value) else r
  }

  /** A successful text between `pre` and `post`; a failure as it is. */
  function Surround(pre: string, r: Result<string, GsubError>, post: string): (q: Result<string, GsubError>)
    ensures q.Success? <==> r.Success?
    ensures q.Success? ==> q.value == pre + r.value + post
  {
    if r.Success? then Success(pre + r.value + post) else r
  }

  /** Ruby's expansion of a replacement string for one match of a string pattern (which has
      no capture groups). `\0` and `\&` give the match, `\1` to `\9` give nothing, `` \` ``
      gives the subject before the match, `\'` the subject after it, `\\` one backslash,
      and `\k<` raises. Any other backslash is kept along with the character after it, and a
      final backslash is kept. */
  function Expand(rep: string, matched: string, pre: string, post: string): (r: Result<string, GsubError>)
    ensures 'k' !in rep ==> r.Success?
    decreases |rep|
  {
    if rep == [] then Success([])
    else if rep[0] != '\\' || |rep| == 1 then PrependOk(rep[..1], Expand(rep[1..], matched, pre, post))
    else
      var c := rep[1];
      if c == 'k' && |rep| > 2 && rep[2] == '<' then
        var name := rep[3..];
        if '>' in name then Failure(UndefinedGroupName(name[..IndexOf(name, '>')]))
        else Failure(InvalidGroupNameFormat)
      else
        var piece :=
          if c == '0' || c == '&' then matched
          else if '1' <= c <= '9' then []
          else if c == '`' then pre
          else if c == '\'' then post
          else if c == '\\' then "\\"
          else rep[..2];
        PrependOk(piece, Expand(rep[2..], matched, pre, post))
  }

  /** A replacement without a backslash is inserted as it is. */
  lemma {:induction false} ExpandPlain(rep: string, matched: string, pre: string, post: string)
    requires '\\' !in rep
    ensures Expand(rep, matched, pre, post) == Success(rep)
    decreases |rep|
  {
    if rep != [] {
      ExpandPlain(rep[1..], matched, pre, post);
      assert rep[..1] + rep[1..] == rep;
    }
  }

  /** Ruby String#gsub with a string pattern and a replacement string: every non-overlapping
      occurrence, scanning left to right, becomes the expansion of the replacement for that
      match; `before` is the part of the subject already scanned. */
  function GsubAfter(before: string, s: string, pat: string, rep: string): (r: Result<string, GsubError>)
    requires pat != []
    ensures 'k' !in rep ==> r.Success?
    decreases |s|
  {
    if |s| < |pat| then Success(s)
    else if s[..|pat|] == pat then
      match Expand(rep, pat, before, s[|pat|..])
      case Failure(e) => Failure(e)
      case Success(x) => PrependOk(x, GsubAfter(before + pat, s[|pat|..], pat, rep))
    else PrependOk(s[..1], GsubAfter(before + s[..1], s[1..], pat, rep))
  }

  /** Only a `\k` escape can make gsub raise, and a replacement without a backslash replaces
      every occurrence as it is. */
  function Gsub(s: string, pat: string, rep: string): (r: Result<string, GsubError>)
    requires pat != []
    ensures 'k' !in rep ==> r.Success?
    ensures '\\' !in rep ==> r == Success(ReplaceAll(s, pat, rep))
  {
    if '\\' !in rep then GsubPlain([], s, pat, rep); GsubAfter([], s, pat, rep)
    else GsubAfter([], s, pat, rep)
  }

  /** With a backslash-free replacement, gsub is plain replacement of every occurrence. */
  lemma {:induction false} GsubPlain(before: string, s: string, pat: string, rep: string)
    requires pat != [] && '\\' !in rep
    ensures GsubAfter(before, s, pat, rep) == Success(ReplaceAll(s, pat, rep))
    decreases |s|
  {
    if |s| >= |pat| {
      if s[..|pat|] == pat {
        ExpandPlain(rep, pat, before, s[|pat|..]);
        GsubPlain(before + pat, s[|pat|..], pat, rep);
      } else {
        GsubPlain(before + s[..1], s[1..], pat, rep);
        assert s[..1] == [s[0]];
      }
    }
  }

  /** Where the pattern cannot start, gsub changes nothing. */
  lemma {:induction false} GsubAbsent(before: string, s: string, pat: string, rep: string)
    requires pat != [] && pat[0] !in s
    ensures GsubAfter(before, s, pat, rep) == Success(s)
    decreases |s|
  {
    if |s| >= |pat| {
      assert s[0] != pat[0];
      GsubAbsent(before + s[..1], s[1..], pat, rep);
      assert s[..1] + s[1..] == s;
    }
  }

  /** Text where the pattern cannot start is copied, and scanning goes on after it. */
  lemma {:induction false} GsubSkip(before: string, pre: string, rest: string, pat: string, rep: string)
    requires pat != [] && pat[0] !in pre
    ensures GsubAfter(before, pre + rest, pat, rep) == PrependOk(pre, GsubAfter(before + pre, rest, pat, rep))
    decreases |pre|
  {
    var s := pre + rest;
    if pre == [] {
      assert s == rest && before + pre == before;
      var x := GsubAfter(before, rest, pat, rep);
      if x.Success? {
        assert pre + x.value == x.value;
      }
    } else if |s| < |pat| {
      assert GsubAfter(before + pre, rest, pat, rep) == Success(rest);
    } else {
      assert s[0] == pre[0] != pat[0];
      assert s[..|pat|] != pat by {
        assert s[..|pat|][0] == s[0];
      }
      assert s[..1] == pre[..1] && s[1..] == pre[1..] + rest;
      var inner := GsubAfter(before + pre, rest, pat, rep);
      GsubSkip(before + pre[..1], pre[1..], rest, pat, rep);
      assert before + pre[..1] + pre[1..] == before + pre;
      assert GsubAfter(before + pre[..1], pre[1..] + rest, pat, rep) == PrependOk(pre[1..], inner);
      assert GsubAfter(before, s, pat, rep) == PrependOk(pre[..1], PrependOk(pre[1..], inner));
      if inner.Success? {
        assert pre[..1] + (pre[1..] + inner.value) == pre + inner.value;
      }
    }
  }

  /** A subject holding the pattern once, with the pattern's first character nowhere else,
      becomes the text before it, the expansion for that match, and the text after it. */
  lemma GsubOnce(pre: string, pat: string, rep: string, post: string)
    requires pat != [] && pat[0] !in pre && pat[0] !in post
    ensures Gsub(pre + pat + post, pat, rep) == Surround(pre, Expand(rep, pat, pre, post), post)
  {
    GsubSkip([], pre, pat + post, pat, rep);
    assert pre + pat + post == pre + (pat + post);
    assert [] + pre == pre;
    var s := pat + post;
    assert s[..|pat|] == pat && s[|pat|..] == post;
    GsubAbsent(pre + pat, post, pat, rep);
    var x := Expand(rep, pat, pre, post);
    assert GsubAfter(pre, s, pat, rep) ==
      (if x.Success? then PrependOk(x.value, Success(post)) else Failure(x.error));
    if x.Success? {
      assert pre + (x.value + post) == pre + x.value + post;
    }
  }

  // ---------------------------------------------------------------------------
  // Numbers

  function DigitValue(c: char): nat
    requires IsDigit(c)
  {
    (c as int) - ('0' as int)
  }

  function DigitChar(d: nat): char
    requires d < 10
  {
    (('0' as int) + d) as char
  }

  /** The value of a string of decimal digits; the empty string is 0. */
  function DigitsValue(ds: string): nat
    requires AllDigits(ds)
  {
    if ds == [] then 0 else 10 * DigitsValue(ds[..|ds| - 1]) + DigitValue(ds[|ds| - 1])
  }

  /** Decimal rendering of a natural number, no leading zeros. */
  function NatToString(n: nat): (s: string)
    ensures s != [] && AllDigits(s)
    ensures IsDigit(s[0])
  {
    if n < 10 then [DigitChar(n)] else NatToString(n / 10) + [DigitChar(n % 10)]
  }

  /** Decimal rendering of an integer (Ruby Integer#to_s, JavaScript String(n)). */
  function IntToString(i: int): (s: string)
    ensures s != []
  {
    if i < 0 then "-" + NatToString(-i) else NatToString(i)
  }

  lemma {:induction false} NatToStringValue(n: nat)
    ensures DigitsValue(NatToString(n)) == n
  {
    if n >= 10 {
      NatToStringValue(n / 10);
      var s := NatToString(n);
      assert s[..|s| - 1] == NatToString(n / 10);
    }
  }

  /** The number of leading decimal digits. */
  function LeadingDigits(s: string): (n: nat)
    ensures n <= |s| && AllDigits(s[..n])
    ensures n < |s| ==> !IsDigit(s[n])
  {
    if s == [] || !IsDigit(s[0]) then 0
    else
      var n := 1 + LeadingDigits(s[1..]);
      assert s[..n] == [s[0]] + s[1..][..n - 1];
      n
  }

  lemma {:induction false} LeadingDigitsAll(s: string)
    requires AllDigits(s)
    ensures LeadingDigits(s) == |s|
  {
    if s != [] {
      LeadingDigitsAll(s[1..]);
    }
  }

  /** Leading whitespace as Ruby's integer parser skips it (no NUL). */
  function SkipSpace(s: string): (r: string)
    ensures |r| <= |s| && r == s[|s| - |r|..]
    ensures r == [] || !IsSpace(r[0])
  {
    if s != [] && IsSpace(s[0]) then SkipSpace(s[1..]) else s
  }

  /** The optional radix prefix "0d" or "0D" that Ruby's base-10 integer parser skips
      after the sign. */
  function SkipDecimalPrefix(u: string): (r: string)
    ensures |r| <= |u| && r == u[|u| - |r|..]
    ensures u != [] && IsDigit(u[0]) && (|u| == 1 || IsDigit(u[1])) ==> r == u
  {
    if |u| >= 2 && u[0] == '0' && (u[1] == 'd' || u[1] == 'D') then u[2..] else u
  }

  /** The unsigned part of to_i: an optional "0d"/"0D" prefix, then the leading decimal
      digits; 0 when there are none. */
  function UnsignedToI(u: string): (r: nat)
    ensures AllDigits(u) ==> r == DigitsValue(u)
  {
    var v := SkipDecimalPrefix(u);
    assert AllDigits(u) ==> v == u && v[..LeadingDigits(v)] == v by {
      if AllDigits(u) {
        if u != [] {
          assert IsDigit(u[0]) && (|u| == 1 || IsDigit(u[1]));
        }
        LeadingDigitsAll(u);
      }
    }
    DigitsValue(v[..LeadingDigits(v)])
  }

  /** Ruby String#to_i, for plain decimal numerals: leading whitespace skipped, an optional
      sign, an optional "0d"/"0D" prefix, then the leading decimal digits; 0 when there are
      none. Ruby also reads a single '_' between two digits as a separator; this reading
      stops there. */
  function ToI(s: string): int
  {
    var t := SkipSpace(s);
    if t != [] && (t[0] == '-' || t[0] == '+') then
      var v: int := UnsignedToI(t[1..]);
      if t[0] == '-' then -v else v
    else
      UnsignedToI(t)
  }

  /** An unsigned run of digits reads back as its value. */
  lemma ToIDigits(ds: string)
    requires ds != [] && AllDigits(ds)
    ensures ToI(ds) == DigitsValue(ds)
  {
    assert SkipSpace(ds) == ds by {
      assert !IsSpace(ds[0]);
    }
  }

  /** A minus sign before a run of digits negates its value. */
  lemma ToINegDigits(ds: string)
    requires ds != [] && AllDigits(ds)
    ensures ToI("-" + ds) == -(DigitsValue(ds) as int)
  {
    var neg := ['-'] + ds;
    assert neg == "-" + ds;
    assert neg[0] == '-' && neg[1..] == ds;
    assert SkipSpace(neg) == neg by {
      assert !IsSpace(neg[0]);
    }
    var v: int := DigitsValue(ds);
    assert ToI(neg) == -v;
  }

  /** After the prefix "0d" or "0D" come the digits that are read. */
  lemma {:induction false} UnsignedToIPrefix(ds: string, d: char)
    requires AllDigits(ds) && (d == 'd' || d == 'D')
    ensures UnsignedToI(['0', d] + ds) == DigitsValue(ds)
  {
    var pos := ['0', d] + ds;
    assert SkipDecimalPrefix(pos) == ds by {
      assert pos[2..] == ds;
    }
    assert ds[..LeadingDigits(ds)] == ds by {
      LeadingDigitsAll(ds);
    }
  }

  /** Text that starts with neither blank nor sign is read unsigned. */
  lemma ToIUnsigned(u: string)
    requires u != [] && !IsSpace(u[0]) && u[0] != '-' && u[0] != '+'
    ensures ToI(u) == UnsignedToI(u)
  {
    assert SkipSpace(u) == u;
  }

  /** A leading minus sign negates what follows it. */
  lemma ToIMinus(u: string)
    ensures ToI(['-'] + u) == -(UnsignedToI(u) as int)
  {
    var neg := ['-'] + u;
    assert neg[0] == '-' && neg[1..] == u;
    assert SkipSpace(neg) == neg by {
      assert !IsSpace(neg[0]);
    }
    var v: int := UnsignedToI(u);
    assert ToI(neg) == -v;
  }

  /** The "0d" radix prefix, in either case and after an optional minus sign, is skipped:
      "0d12" reads as 12 and "-0D7" as -7. */
  lemma {:induction false} ToIDecimalPrefix(ds: string, d: char)
    requires AllDigits(ds) && (d == 'd' || d == 'D')
    ensures ToI(['0', d] + ds) == DigitsValue(ds)
    ensures ToI(['-'] + (['0', d] + ds)) == -(DigitsValue(ds) as int)
  {
    var pos := ['0', d] + ds;
    UnsignedToIPrefix(ds, d);
    assert ToI(pos) == DigitsValue(ds) by {
      assert pos[0] == '0';
      ToIUnsigned(pos);
    }
    ToIMinus(pos);
  }

  /** Ruby's to_i reads back every decimal rendering. */
  lemma ToIOfIntToString(i: int)
    ensures ToI(IntToString(i)) == i
  {
    var n: nat := if i < 0 then -i else i;
    NatToStringValue(n);
    if i < 0 {
      ToINegDigits(NatToString(n));
    } else {
      ToIDigits(NatToString(n));
    }
  }

  lemma IntToStringInjective(i: int, j: int)
    requires IntToString(i) == IntToString(j)
    ensures i == j
  {
    ToIOfIntToString(i);
    ToIOfIntToString(j);
  }
}
