/**
 * The string operations of the Rust standard library that the server's
 * parser is built from: `str::split` with a string pattern, `[&str]::join`,
 * `str::trim`, `String::truncate` and `str::as_bytes` on ASCII text.
 */
module Text {
  import opened Wrappers

  /** An octet, as in Rust's `u8`. */
  newtype byte = x: int | 0 <= x < 256

  /** True when `sep` occurs in `s` starting at index `i`. */
  predicate OccursAt(s: string, sep: string, i: int) {
    0 <= i && i + |sep| <= |s| && s[i..i + |sep|] == sep
  }

  predicate Contains(s: string, sep: string) {
    exists i :: 0 <= i <= |s| && OccursAt(s, sep, i)
  }

  /** Dropping the first character shifts every occurrence one place to the left. */
  lemma OccursAtShift(s: string, sep: string, i: int)
    requires |s| > 0 && 0 <= i
    ensures OccursAt(s[1..], sep, i) <==> OccursAt(s, sep, i + 1)
  {
    if && i + |sep| <= |s| - 1 {
      assert s[1..][i..i + |sep|] == s[i + 1..i + 1 + |sep|];
    }
  }

  /** The index of the leftmost occurrence of a non-empty `sep` in `s`. */
  function FindFirst(s: string, sep: string): (r: Option<nat>)
    requires |sep| > 0
    ensures r.Some? ==> OccursAt(s, sep, r.value)
    ensures r.Some? ==> forall i :: 0 <= i < r.value ==> !OccursAt(s, sep, i)
    ensures r.None? ==> !Contains(s, sep)
    decreases |s|
  {
    if |s| < |sep| then None
    else if s[..|sep|] == sep then Some(0)
    else
      var rest := FindFirst(s[1..], sep);
      assert forall i :: 1 <= i ==> (OccursAt(s, sep, i) <==> OccursAt(s[1..], sep, i - 1)) by {
        forall i | 1 <= i ensures OccursAt(s, sep, i) <==> OccursAt(s[1..], sep, i - 1) {
          OccursAtShift(s, sep, i);
        }
      }
      assert !OccursAt(s, sep, 0);
      match rest
      case None => None
      case Some(k) => Some(k + 1)
  }

  /** An occurrence with none before it is the one `FindFirst` reports. */
  lemma FindFirstIs(s: string, sep: string, i: nat)
    requires |sep| > 0 && OccursAt(s, sep, i)
    requires forall j :: 0 <= j < i ==> !OccursAt(s, sep, j)
    ensures FindFirst(s, sep) == Some(i)
  {
  }

  /** Rust's `[&str]::join`: the pieces with `sep` between neighbours. */
  function Join(pieces: seq<string>, sep: string): string {
    if |pieces| == 0 then ""
    else if |pieces| == 1 then pieces[0]
    else pieces[0] + sep + Join(pieces[1..], sep)
  }

  /** Joining four pieces puts the separator between each neighbouring pair. */
  lemma JoinFour(a: string, b: string, c: string, d: string, sep: string)
    ensures Join([a, b, c, d], sep) == a + sep + (b + sep + (c + sep + d))
  {
    assert [c, d][1..] == [d];
    assert Join([c, d], sep) == c + sep + d;
    assert [b, c, d][1..] == [c, d];
    assert Join([b, c, d], sep) == b + sep + (c + sep + d);
    assert [a, b, c, d][1..] == [b, c, d];
  }

  /**
   * Rust's `str::split` with a non-empty string pattern: the pieces between
   * the non-overlapping occurrences of `sep`, found from the left. Joining
   * the pieces with `sep` gives `s` back.
   */
  function Split(s: string, sep: string): (r: seq<string>)
    requires |sep| > 0
    ensures |r| >= 1
    ensures Join(r, sep) == s
    decreases |s|
  {
    match FindFirst(s, sep)
    case None => [s]
    case Some(i) =>
      assert s == s[..i] + sep + s[i + |sep|..] by {
        assert s[i..i + |sep|] == sep;
        assert s == s[..i] + s[i..i + |sep|] + s[i + |sep|..];
      }
      [s[..i]] + Split(s[i + |sep|..], sep)
  }

  /** No piece of a split contains the separator. */
  lemma {:induction false} SplitPieces(s: string, sep: string, k: nat)
    requires |sep| > 0 && k < |Split(s, sep)|
    ensures !Contains(Split(s, sep)[k], sep)
    decreases |s|
  {
    match FindFirst(s, sep)
    case None =>
    case Some(i) =>
      if k == 0 {
        forall j | 0 <= j <= i ensures !OccursAt(s[..i], sep, j) {
          if j + |sep| <= i {
            assert s[..i][j..j + |sep|] == s[j..j + |sep|];
            assert !OccursAt(s, sep, j);
          }
        }
      } else {
        SplitPieces(s[i + |sep|..], sep, k - 1);
      }
  }

  /** The first piece of a split is a prefix of the text. */
  lemma SplitHead(s: string, sep: string)
    requires |sep| > 0
    ensures |Split(s, sep)[0]| <= |s| && Split(s, sep)[0] == s[..|Split(s, sep)[0]|]
  {
  }

  /** Splitting at a known first occurrence. */
  lemma SplitAt(s: string, sep: string, i: nat)
    requires |sep| > 0 && OccursAt(s, sep, i)
    requires forall j :: 0 <= j < i ==> !OccursAt(s, sep, j)
    ensures Split(s, sep) == [s[..i]] + Split(s[i + |sep|..], sep)
  {
    FindFirstIs(s, sep, i);
  }

  /** Splitting where the first occurrence is known to follow `head`. */
  lemma SplitAfter(head: string, sep: string, rest: string)
    requires |sep| > 0 && FindFirst(head + sep + rest, sep) == Some(|head|)
    ensures Split(head + sep + rest, sep) == [head] + Split(rest, sep)
  {
    var text := head + sep + rest;
    assert text[..|head|] == head;
    assert text[|head| + |sep|..] == rest;
  }

  /** A string without any occurrence of `sep` is a single piece. */
  lemma SplitWithout(s: string, sep: string)
    requires |sep| > 0 && !Contains(s, sep)
    ensures Split(s, sep) == [s]
  {
    match FindFirst(s, sep)
    case None =>
    case Some(i) => assert false;
  }

  /**
   * Splitting undoes joining, provided no piece contains the separator's
   * first character (so every occurrence is one of the joints).
   */
  lemma {:induction false} SplitOfJoin(pieces: seq<string>, sep: string)
    requires |sep| > 0 && |pieces| >= 1
    requires forall k :: 0 <= k < |pieces| ==> sep[0] !in pieces[k]
    ensures Split(Join(pieces, sep), sep) == pieces
  {
    var p := pieces[0];
    if |pieces| == 1 {
      assert !Contains(p, sep) by {
        forall j | OccursAt(p, sep, j) ensures false {
        }
      }
      SplitWithout(p, sep);
    } else {
      var s := Join(pieces, sep);
      var rest := Join(pieces[1..], sep);
      assert s == p + sep + rest;
      assert s[|p|..|p| + |sep|] == sep;
      forall j | 0 <= j < |p| ensures !OccursAt(s, sep, j) {
        assert p[j] == s[j];
      }
      SplitAt(s, sep, |p|);
      assert s[..|p|] == p;
      assert s[|p| + |sep|..] == rest;
      SplitOfJoin(pieces[1..], sep);
    }
  }

  /** Splitting on one character gives one more piece than it has occurrences. */
  lemma {:induction false} SplitCount(s: string, c: char)
    ensures |Split(s, [c])| == multiset(s)[c] + 1
    decreases |s|
  {
    match FindFirst(s, [c])
    case None =>
      if c in s {
        var i :| 0 <= i < |s| && s[i] == c;
        assert OccursAt(s, [c], i);
      }
    case Some(i) =>
      var head, tail := s[..i], s[i + 1..];
      assert s == head + [c] + tail by {
        assert s[i..i + 1] == [c];
        assert s == s[..i] + s[i..i + 1] + s[i + 1..];
      }
      forall j | 0 <= j < |head| ensures head[j] != c {
        assert !OccursAt(s, [c], j);
        assert s[j..j + 1] == [head[j]];
      }
      SplitCount(tail, c);
      assert multiset(s) == multiset(head) + multiset{c} + multiset(tail);
  }

  /** Rust's `char::is_whitespace`: the Unicode White_Space property. */
  predicate IsWhitespace(c: char) {
    ('\t' <= c <= '\r') || c == ' ' || c == '\U{85}' || c == '\U{A0}' || c == '\U{1680}'
    || ('\U{2000}' <= c <= '\U{200A}') || c == '\U{2028}' || c == '\U{2029}'
    || c == '\U{202F}' || c == '\U{205F}' || c == '\U{3000}'
  }

  predicate AllWhitespace(s: string) {
    forall k :: 0 <= k < |s| ==> IsWhitespace(s[k])
  }

  /** `str::trim_start`: `s` without its leading whitespace. */
  function TrimStart(s: string): (r: string)
    ensures |r| <= |s|
    ensures r == [] || !IsWhitespace(r[0])
    decreases |s|
  {
    if |s| > 0 && IsWhitespace(s[0]) then TrimStart(s[1..]) else s
  }

  /** What `TrimStart` drops is a whitespace prefix; what it keeps is the rest. */
  lemma {:induction false} TrimStartSuffix(s: string)
    ensures TrimStart(s) == s[|s| - |TrimStart(s)|..]
    ensures AllWhitespace(s[..|s| - |TrimStart(s)|])
    decreases |s|
  {
    if |s| > 0 && IsWhitespace(s[0]) {
      TrimStartSuffix(s[1..]);
      assert s[..|s| - |TrimStart(s)|] == [s[0]] + s[1..][..|s| - 1 - |TrimStart(s)|];
    }
  }

  /** `str::trim_end`: `s` without its trailing whitespace. */
  function TrimEnd(s: string): (r: string)
    ensures |r| <= |s|
    ensures r == [] || !IsWhitespace(r[|r| - 1])
    decreases |s|
  {
    if |s| > 0 && IsWhitespace(s[|s| - 1]) then TrimEnd(s[..|s| - 1]) else s
  }

  /** What `TrimEnd` drops is a whitespace suffix; what it keeps is the rest. */
  lemma {:induction false} TrimEndPrefix(s: string)
    ensures TrimEnd(s) == s[..|TrimEnd(s)|]
    ensures AllWhitespace(s[|TrimEnd(s)|..])
    decreases |s|
  {
    if |s| > 0 && IsWhitespace(s[|s| - 1]) {
      var r := TrimEnd(s[..|s| - 1]);
      TrimEndPrefix(s[..|s| - 1]);
      assert s[|r|..] == s[..|s| - 1][|r|..] + [s[|s| - 1]];
    }
  }

  /** `str::trim`: `s` without its leading and trailing whitespace. */
  function Trim(s: string): (r: string)
    ensures |r| <= |s|
    ensures r == [] || (!IsWhitespace(r[0]) && !IsWhitespace(r[|r| - 1]))
  {
    TrimEndPrefix(TrimStart(s));
    TrimEnd(TrimStart(s))
  }

  /**
   * `Trim` drops only whitespace: the result sits in `s` between a
   * whitespace prefix and a whitespace suffix.
   */
  lemma TrimInside(s: string)
    ensures exists i :: 0 <= i <= |s| - |Trim(s)|
              && s[i..i + |Trim(s)|] == Trim(s)
              && AllWhitespace(s[..i]) && AllWhitespace(s[i + |Trim(s)|..])
  {
    var t := TrimStart(s);
    var i := |s| - |t|;
    TrimStartSuffix(s);
    TrimEndPrefix(t);
    var r := Trim(s);
    assert s[i..i + |r|] == t[..|r|];
    assert s[i + |r|..] == t[|r|..];
  }

  /** Leading whitespace before a value that does not start with whitespace is dropped. */
  lemma {:induction false} TrimStartPadded(w: string, v: string)
    requires AllWhitespace(w)
    requires v == [] || !IsWhitespace(v[0])
    ensures TrimStart(w + v) == v
    decreases |w|
  {
    if w != [] {
      assert (w + v)[1..] == w[1..] + v;
      TrimStartPadded(w[1..], v);
    } else {
      assert w + v == v;
    }
  }

  /** Trailing whitespace after a value that does not end with whitespace is dropped. */
  lemma {:induction false} TrimEndPadded(v: string, w: string)
    requires AllWhitespace(w)
    requires v == [] || !IsWhitespace(v[|v| - 1])
    ensures TrimEnd(v + w) == v
    decreases |w|
  {
    if w != [] {
      assert (v + w)[..|v + w| - 1] == v + w[..|w| - 1];
      TrimEndPadded(v, w[..|w| - 1]);
    } else {
      assert v + w == v;
    }
  }

  /**
   * `Trim` keeps exactly the part between whitespace padding: a value whose
   * ends are not whitespace comes back unchanged from any padding.
   */
  lemma TrimPadded(lead: string, v: string, trail: string)
    requires AllWhitespace(lead) && AllWhitespace(trail)
    requires v == [] || (!IsWhitespace(v[0]) && !IsWhitespace(v[|v| - 1]))
    ensures Trim(lead + v + trail) == v
  {
    if v == [] {
      assert lead + v + trail == lead + trail;
      assert AllWhitespace(lead + trail);
      TrimStartPadded(lead + trail, []);
      assert lead + trail + [] == lead + trail;
      TrimEndPadded([], []);
    } else {
      assert lead + v + trail == lead + (v + trail);
      TrimStartPadded(lead, v + trail);
      TrimEndPadded(v, trail);
    }
  }

  /** An occurrence in `b` is an occurrence in `a + b`, shifted by `|a|`. */
  lemma OccursAtAppend(a: string, b: string, sep: string, j: int)
    requires j >= |a|
    ensures OccursAt(a + b, sep, j) <==> OccursAt(b, sep, j - |a|)
  {
    if j + |sep| <= |a + b| {
      assert (a + b)[j..j + |sep|] == b[j - |a|..j - |a| + |sep|];
    }
  }

  /** Prefixing text free of the separator's first character shifts the first occurrence. */
  lemma NoOccurrenceBefore(a: string, b: string, sep: string, m: nat)
    requires |sep| > 0 && sep[0] !in a
    requires forall j :: 0 <= j < m ==> !OccursAt(b, sep, j)
    ensures forall j :: 0 <= j < |a| + m ==> !OccursAt(a + b, sep, j)
  {
    forall j | 0 <= j < |a| + m ensures !OccursAt(a + b, sep, j) {
      if j < |a| {
        assert (a + b)[j] == a[j];
      } else {
        OccursAtAppend(a, b, sep, j);
      }
    }
  }

  /** A line break followed by a non-empty line is not a blank line. */
  lemma LineBreakNotBlank(t: string, m: nat)
    requires |t| >= 1 && t[0] != '\r'
    requires forall j :: 0 <= j < m ==> !OccursAt(t, "\r\n\r\n", j)
    ensures forall j :: 0 <= j < 2 + m ==> !OccursAt("\r\n" + t, "\r\n\r\n", j)
  {
    var sep := "\r\n\r\n";
    forall j | 0 <= j < 2 + m ensures !OccursAt("\r\n" + t, sep, j) {
      if j == 0 {
        assert ("\r\n" + t)[2] == t[0];
      } else if j == 1 {
        assert ("\r\n" + t)[1] == '\n';
      } else {
        OccursAtAppend("\r\n", t, sep, j);
      }
    }
  }

  /**
   * Lines joined with CRLF and followed by a blank line: the first blank
   * line is the one after the last line, as long as every line is non-empty
   * and holds no carriage return.
   */
  lemma {:induction false} FirstBlankLine(lines: seq<string>, rest: string)
    requires |lines| >= 1
    requires forall k :: 0 <= k < |lines| ==> |lines[k]| >= 1 && '\r' !in lines[k]
    ensures FindFirst(Join(lines, "\r\n") + "\r\n\r\n" + rest, "\r\n\r\n") == Some(|Join(lines, "\r\n")|)
    decreases |lines|
  {
    var sep := "\r\n\r\n";
    var head := Join(lines, "\r\n");
    var text := head + sep + rest;
    var first := lines[0];
    assert OccursAt(text, sep, |head|) by {
      assert text[|head|..|head| + 4] == sep;
    }
    if |lines| == 1 {
      AppendAssoc(first, sep, rest);
      NoOccurrenceBefore(first, sep + rest, sep, 0);
    } else {
      var tailHead := Join(lines[1..], "\r\n");
      var tailText := tailHead + sep + rest;
      FirstBlankLine(lines[1..], rest);
      assert tailText[0] == lines[1][0];
      LineBreakNotBlank(tailText, |tailHead|);
      assert head == (first + "\r\n") + tailHead;
      AppendAssoc(first + "\r\n", tailHead, sep);
      AppendAssoc(first + "\r\n", tailHead + sep, rest);
      AppendAssoc(first, "\r\n", tailText);
      NoOccurrenceBefore(first, "\r\n" + tailText, sep, 2 + |tailHead|);
    }
    FindFirstIs(text, sep, |head|);
  }

  /**
   * A head of plain lines, a blank line and a rest: the text splits at the
   * blank line after the head, and the head splits back into its lines.
   */
  lemma HeadAndRest(lines: seq<string>, rest: string)
    requires |lines| >= 1
    requires forall k :: 0 <= k < |lines| ==> |lines[k]| >= 1 && '\r' !in lines[k]
    ensures Split(Join(lines, "\r\n") + "\r\n\r\n" + rest, "\r\n\r\n")
         == [Join(lines, "\r\n")] + Split(rest, "\r\n\r\n")
    ensures Split(Join(lines, "\r\n"), "\r\n") == lines
  {
    FirstBlankLine(lines, rest);
    SplitAfter(Join(lines, "\r\n"), "\r\n\r\n", rest);
    SplitOfJoin(lines, "\r\n");
  }

  /** A prefix of a string without `sep` has none either. */
  lemma PrefixWithout(s: string, n: nat, sep: string)
    requires n <= |s| && !Contains(s, sep)
    ensures !Contains(s[..n], sep)
  {
    forall j | 0 <= j <= n && OccursAt(s[..n], sep, j) ensures false {
      assert s[..n][j..j + |sep|] == s[j..j + |sep|];
      assert OccursAt(s, sep, j);
    }
  }

  /** `String::truncate(n)` counted in characters: the first `n`, or all of `s`. */
  function Truncate(s: string, n: nat): (r: string)
    ensures |r| == if n < |s| then n else |s|
    ensures r == s[..|r|]
  {
    if n < |s| then s[..n] else s
  }

  predicate IsAscii(s: string) {
    forall k :: 0 <= k < |s| ==> s[k] as int < 128
  }

  /** `str::as_bytes` on ASCII text: one byte per character, its code. */
  function Bytes(s: string): (r: seq<byte>)
    requires IsAscii(s)
    ensures |r| == |s|
    ensures forall k :: 0 <= k < |s| ==> r[k] as int == s[k] as int
  {
    seq(|s|, k requires 0 <= k < |s| => s[k] as int as byte)
  }

  /** Concatenation is associative; stated for use on long concatenations. */
  lemma AppendAssoc<T>(a: seq<T>, b: seq<T>, c: seq<T>)
    ensures a + (b + c) == (a + b) + c
  {
  }

  /** Concatenating ASCII text gives ASCII text. */
  lemma AsciiAppend(a: string, b: string)
    requires IsAscii(a) && IsAscii(b)
    ensures IsAscii(a + b)
  {
    forall k | 0 <= k < |a + b| ensures (a + b)[k] as int < 128 {
      if k < |a| {
        assert (a + b)[k] == a[k];
      } else {
        assert (a + b)[k] == b[k - |a|];
      }
    }
  }

  /** The bytes of a concatenation are the bytes of its parts. */
  lemma BytesAppend(a: string, b: string)
    requires IsAscii(a) && IsAscii(b)
    ensures IsAscii(a + b) && Bytes(a + b) == Bytes(a) + Bytes(b)
  {
  }
}
