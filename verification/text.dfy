/** String primitives the task manager relies on: `str::trim`, an ASCII
    `to_lowercase`, `str::contains`, and searching for a separator. */
module Text {
  import opened Wrappers

  /** Rust's `char::is_whitespace`: the Unicode White_Space property. */
  predicate IsWhitespace(c: char) {
    || ('\t' <= c <= '\r')
    || c == ' '
    || c == '\U{0085}'
    || c == '\U{00A0}'
    || c == '\U{1680}'
    || ('\U{2000}' <= c <= '\U{200A}')
    || c == '\U{2028}'
    || c == '\U{2029}'
    || c == '\U{202F}'
    || c == '\U{205F}'
    || c == '\U{3000}'
  }

  predicate AllWhitespace(s: string) {
    forall k :: 0 <= k < |s| ==> IsWhitespace(s[k])
  }

  /** How many whitespace characters `s` starts with. */
  function LeadingSpace(s: string): (n: nat)
    ensures n <= |s| && AllWhitespace(s[..n])
    ensures n < |s| ==> !IsWhitespace(s[n])
    decreases |s|
  {
    if |s| > 0 && IsWhitespace(s[0]) then
      var m := LeadingSpace(s[1..]);
      assert forall k :: 0 < k < m + 1 ==> s[k] == s[1..][..m][k - 1];
      assert m + 1 < |s| ==> s[m + 1] == s[1..][m];
      m + 1
    else 0
  }

  /** Where the whitespace that `s` ends with begins. */
  function TrailingStart(s: string): (n: nat)
    ensures n <= |s| && AllWhitespace(s[n..])
    ensures n > 0 ==> !IsWhitespace(s[n - 1])
    decreases |s|
  {
    if |s| > 0 && IsWhitespace(s[|s| - 1]) then
      var m := TrailingStart(s[..|s| - 1]);
      assert forall k :: m <= k < |s| - 1 ==> s[k] == s[..|s| - 1][m..][k - m];
      assert m > 0 ==> s[m - 1] == s[..|s| - 1][m - 1];
      m
    else |s|
  }

  /** `str::trim_start`: drops the longest whitespace prefix. */
  function TrimStart(s: string): string {
    s[LeadingSpace(s)..]
  }

  /** `str::trim_end`: drops the longest whitespace suffix. */
  function TrimEnd(s: string): string {
    s[..TrailingStart(s)]
  }

  /** `str::trim`: the result is a contiguous piece of `s`, everything cut
      off is whitespace, and the result neither starts nor ends with it. */
  function Trim(s: string): (r: string)
    ensures exists i, j :: 0 <= i <= j <= |s| && r == s[i..j]
                           && AllWhitespace(s[..i]) && AllWhitespace(s[j..])
    ensures |r| > 0 ==> !IsWhitespace(r[0]) && !IsWhitespace(r[|r| - 1])
  {
    var i := LeadingSpace(s);
    var a := s[i..];
    var n := TrailingStart(a);
    assert a[..n] == s[i..i + n];
    assert a[n..] == s[i + n..];
    TrimEnd(TrimStart(s))
  }

  /** Trimming twice is trimming once. */
  lemma TrimIdempotent(s: string)
    ensures Trim(Trim(s)) == Trim(s)
  {
    var t := Trim(s);
    TrimmedIsFixpoint(t);
  }

  /** A string that neither starts nor ends with whitespace is its own trim. */
  lemma TrimmedIsFixpoint(t: string)
    requires |t| > 0 ==> !IsWhitespace(t[0]) && !IsWhitespace(t[|t| - 1])
    ensures Trim(t) == t
  {
    if |t| > 0 {
      TrimStartKeeps(t);
      TrimEndKeeps(t);
    }
  }

  /** A line read together with its '\n' trims to the line itself, when
      the line neither starts nor ends with whitespace. */
  lemma TrimReadLine(s: string)
    requires |s| > 0 && !IsWhitespace(s[0]) && !IsWhitespace(s[|s| - 1])
    ensures Trim(s + "\n") == s
  {
    var l := s + "\n";
    TrimStartKeeps(l);
    TrimEndDrops(l);
    assert l[..|l| - 1] == s;
    TrimEndKeeps(s);
  }

  lemma TrimStartKeeps(s: string)
    requires |s| > 0 && !IsWhitespace(s[0])
    ensures TrimStart(s) == s
  {
  }

  lemma TrimEndKeeps(s: string)
    requires |s| > 0 && !IsWhitespace(s[|s| - 1])
    ensures TrimEnd(s) == s
  {
  }

  lemma TrimEndDrops(s: string)
    requires |s| > 0 && IsWhitespace(s[|s| - 1])
    ensures TrimEnd(s) == TrimEnd(s[..|s| - 1])
  {
    var n := TrailingStart(s[..|s| - 1]);
    assert s[..|s| - 1][..n] == s[..n];
  }

  /** A string made only of whitespace trims to the empty string. */
  lemma TrimAllWhitespace(s: string)
    ensures Trim(s) == "" <==> AllWhitespace(s)
  {
    var r := Trim(s);
    if r == "" {
      var i, j :| 0 <= i <= j <= |s| && r == s[i..j]
                  && AllWhitespace(s[..i]) && AllWhitespace(s[j..]);
      forall k | 0 <= k < |s| ensures IsWhitespace(s[k]) {
        if k < i { assert s[k] == s[..i][k]; } else { assert s[k] == s[j..][k - j]; }
      }
    }
  }

  /** ASCII lower-casing of one character; every other character is kept. */
  function LowerChar(c: char): (r: char)
    ensures 'A' <= c <= 'Z' ==> 'a' <= r <= 'z' && r as int - c as int == 32
    ensures !('A' <= c <= 'Z') ==> r == c
  {
    if 'A' <= c <= 'Z' then (c as int + 32) as char else c
  }

  /** `str::to_lowercase`, restricted to ASCII letters. */
  function Lower(s: string): (r: string)
    ensures |r| == |s|
    ensures forall k :: 0 <= k < |s| ==> r[k] == LowerChar(s[k])
    ensures forall k :: 0 <= k < |r| ==> !('A' <= r[k] <= 'Z')
  {
    seq(|s|, k requires 0 <= k < |s| => LowerChar(s[k]))
  }

  /** `needle` occurs in `hay` starting at index `i`. */
  ghost predicate OccursAt(needle: string, hay: string, i: int) {
    0 <= i && i + |needle| <= |hay| && hay[i..i + |needle|] == needle
  }

  /** The specification of `str::contains`: `needle` occurs somewhere in `hay`. */
  ghost predicate IsSubstring(needle: string, hay: string) {
    exists i :: OccursAt(needle, hay, i)
  }

  /** `str::contains`, as a left-to-right scan over the start positions. */
  function Contains(hay: string, needle: string): bool
    decreases |hay|
  {
    if |needle| > |hay| then false
    else if hay[..|needle|] == needle then true
    else Contains(hay[1..], needle)
  }

  /** The scan finds `needle` exactly when it occurs somewhere in `hay`. */
  lemma {:induction false} ContainsIsSubstring(hay: string, needle: string)
    ensures Contains(hay, needle) <==> IsSubstring(needle, hay)
    decreases |hay|
  {
    if |needle| > |hay| {
    } else if hay[..|needle|] == needle {
      assert OccursAt(needle, hay, 0);
    } else {
      ContainsIsSubstring(hay[1..], needle);
      if IsSubstring(needle, hay) {
        var i :| OccursAt(needle, hay, i);
        assert i != 0;
        assert hay[1..][i - 1..i - 1 + |needle|] == needle;
        assert OccursAt(needle, hay[1..], i - 1);
      }
      if Contains(hay[1..], needle) {
        var i :| OccursAt(needle, hay[1..], i);
        assert hay[i + 1..i + 1 + |needle|] == needle;
        assert OccursAt(needle, hay, i + 1);
      }
    }
  }

  /** The empty needle occurs in every string. */
  lemma ContainsEmpty(hay: string)
    ensures Contains(hay, "")
  {
    assert hay[..0] == "";
  }

  /** The first occurrence of `c` in `s`, if any. */
  function IndexOf(s: string, c: char): (r: Option<nat>)
    ensures r.None? <==> c !in s
    ensures r.Some? ==> r.value < |s| && s[r.value] == c && c !in s[..r.value]
    decreases |s|
  {
    if |s| == 0 then None
    else if s[0] == c then Some(0)
    else match IndexOf(s[1..], c)
      case None => None
      case Some(i) => assert s[..i + 1] == [s[0]] + s[1..][..i]; Some(i + 1)
  }

  /** The first occurrence of `c` in `a + [c] + b`, when `a` has none, is
      right after `a`. */
  lemma IndexOfAfter(a: string, c: char, b: string)
    requires c !in a
    ensures IndexOf(a + [c] + b, c) == Some(|a|)
  {
    var s := a + [c] + b;
    assert s[|a|] == c;
    assert s[..|a|] == a;
  }
}

/** `str::split` on a single-character separator, and its inverse. */
module Fields {
  import opened Wrappers
  import opened Text

  /** How many times `c` occurs in `s`. */
  function Occurrences(s: string, c: char): nat
    decreases |s|
  {
    if |s| == 0 then 0
    else (if s[0] == c then 1 else 0) + Occurrences(s[1..], c)
  }

  /** A character that does not occur is counted zero times. */
  lemma {:induction false} OccurrencesAbsent(s: string, c: char)
    requires c !in s
    ensures Occurrences(s, c) == 0
    decreases |s|
  {
    if |s| > 0 {
      assert s[0] != c;
      OccurrencesAbsent(s[1..], c);
    }
  }

  /** Counting distributes over concatenation. */
  lemma {:induction false} OccurrencesAppend(a: string, b: string, c: char)
    ensures Occurrences(a + b, c) == Occurrences(a, c) + Occurrences(b, c)
    decreases |a|
  {
    if |a| > 0 {
      assert (a + b)[0] == a[0];
      assert (a + b)[1..] == a[1..] + b;
      OccurrencesAppend(a[1..], b, c);
    } else {
      assert a + b == b;
    }
  }

  /** `str::split(sep)`: the pieces between separators, in order. There is
      always one more piece than there are separators, and no piece holds a
      separator. */
  function Split(s: string, sep: char): (r: seq<string>)
    ensures |r| == Occurrences(s, sep) + 1
    ensures forall k :: 0 <= k < |r| ==> sep !in r[k]
    decreases |s|
  {
    match IndexOf(s, sep)
    case None =>
      OccurrencesAbsent(s, sep);
      [s]
    case Some(i) =>
      assert s == s[..i] + [sep] + s[i + 1..];
      OccurrencesAppend(s[..i] + [sep], s[i + 1..], sep);
      OccurrencesAppend(s[..i], [sep], sep);
      OccurrencesAbsent(s[..i], sep);
      assert [sep][1..] == [];
      [s[..i]] + Split(s[i + 1..], sep)
  }

  /** The pieces glued back together with `sep` in between. */
  function Join(fields: seq<string>, sep: char): string
    decreases |fields|
  {
    if |fields| == 0 then ""
    else if |fields| == 1 then fields[0]
    else fields[0] + [sep] + Join(fields[1..], sep)
  }

  /** Splitting loses nothing: joining the pieces gives back the string. */
  lemma {:induction false} JoinSplit(s: string, sep: char)
    ensures Join(Split(s, sep), sep) == s
    decreases |s|
  {
    match IndexOf(s, sep)
    case None =>
    case Some(i) =>
      JoinSplit(s[i + 1..], sep);
      assert s == s[..i] + [sep] + s[i + 1..];
  }

  /** Joining separator-free pieces and splitting again gives the pieces back. */
  lemma {:induction false} SplitJoin(fields: seq<string>, sep: char)
    requires |fields| > 0
    requires forall k :: 0 <= k < |fields| ==> sep !in fields[k]
    ensures Split(Join(fields, sep), sep) == fields
    decreases |fields|
  {
    if |fields| == 1 {
      assert IndexOf(fields[0], sep).None?;
    } else {
      SplitCons(fields[0], sep, Join(fields[1..], sep));
      SplitJoin(fields[1..], sep);
      assert fields == [fields[0]] + fields[1..];
    }
  }

  /** A separator-free piece, a separator and more text split as that piece
      followed by the pieces of the rest. */
  lemma SplitCons(a: string, sep: char, rest: string)
    requires sep !in a
    ensures Split(a + [sep] + rest, sep) == [a] + Split(rest, sep)
  {
    IndexOfAfter(a, sep, rest);
    var s := a + [sep] + rest;
    assert s[..|a|] == a;
    assert s[|a| + 1..] == rest;
  }
}
