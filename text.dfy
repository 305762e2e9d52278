/** String operations shared by the reader page (JavaScript) and the parser
    back end (Python): whitespace classes, splitting, joining, tokenising,
    stripping and whitespace collapsing, stated once and proved once. */
module Text {

  /** JavaScript's `\s` in a regular expression; `String.prototype.trim`
      removes the same characters. */
  predicate IsJsSpace(c: char) {
    c == '\t' || c == '\n' || c == '\U{000B}' || c == '\U{000C}' || c == '\r' || c == ' '
    || c == '\U{00A0}' || c == '\U{1680}' || ('\U{2000}' <= c <= '\U{200A}')
    || c == '\U{2028}' || c == '\U{2029}' || c == '\U{202F}' || c == '\U{205F}'
    || c == '\U{3000}' || c == '\U{FEFF}'
  }

  /** Python's `str.isspace`: the class `\s` of a `str` pattern, and what
      `str.split()` and `str.strip()` treat as whitespace. */
  predicate IsPySpace(c: char) {
    ('\t' <= c <= '\r') || ('\U{001C}' <= c <= '\U{001F}') || c == ' '
    || c == '\U{0085}' || c == '\U{00A0}' || c == '\U{1680}' || ('\U{2000}' <= c <= '\U{200A}')
    || c == '\U{2028}' || c == '\U{2029}' || c == '\U{202F}' || c == '\U{205F}' || c == '\U{3000}'
  }

  predicate AllSpace(s: string, isSpace: char -> bool) {
    forall i :: 0 <= i < |s| ==> isSpace(s[i])
  }

  /** No whitespace at either end. */
  predicate Unpadded(s: string, isSpace: char -> bool) {
    |s| > 0 ==> !isSpace(s[0]) && !isSpace(s[|s| - 1])
  }

  /** A token: a non-empty run of characters none of which is whitespace. */
  predicate IsToken(w: string, isSpace: char -> bool) {
    |w| > 0 && forall j :: 0 <= j < |w| ==> !isSpace(w[j])
  }

  // ---------------------------------------------------------------- case

  /** ASCII lower-casing of one character. */
  function LowerChar(c: char): (d: char)
    ensures d == '.' <==> c == '.'
  {
    if 'A' <= c <= 'Z' then (c as int + 32) as char else c
  }

  /** ASCII lower-casing, character by character; the length never changes. */
  function ToLower(s: string): (r: string)
    ensures |r| == |s|
    ensures forall i :: 0 <= i < |s| ==> r[i] == LowerChar(s[i])
  {
    seq(|s|, i requires 0 <= i < |s| => LowerChar(s[i]))
  }

  lemma ToLowerSuffix(s: string, i: nat)
    requires i <= |s|
    ensures ToLower(s)[i..] == ToLower(s[i..])
  {
  }

  // ---------------------------------------------------------------- search

  /** Index of the last occurrence of `c`, or -1 (JavaScript `lastIndexOf`,
      Python `rfind`). */
  function LastIndexOf(s: string, c: char): (i: int)
    ensures -1 <= i < |s|
    ensures i >= 0 ==> s[i] == c && forall j :: i < j < |s| ==> s[j] != c
    ensures i == -1 <==> c !in s
  {
    if |s| == 0 then -1
    else if s[|s| - 1] == c then |s| - 1
    else LastIndexOf(s[..|s| - 1], c)
  }

  /** JavaScript `String.prototype.includes`: `sub` occurs in `s` at some
      position (the empty string occurs everywhere). */
  predicate Contains(s: string, sub: string)
    decreases |s|
  {
    sub <= s || (|s| > 0 && Contains(s[1..], sub))
  }

  // ---------------------------------------------------------------- join

  /** `pieces.join(sep)` / `sep.join(pieces)` for a one-character separator. */
  function Join(pieces: seq<string>, sep: char): string
  {
    if |pieces| == 0 then ""
    else if |pieces| == 1 then pieces[0]
    else pieces[0] + [sep] + Join(pieces[1..], sep)
  }

  /** Joining two non-empty lists puts exactly one separator between them. */
  lemma {:induction false} JoinAppend(a: seq<string>, b: seq<string>, sep: char)
    requires |a| > 0 && |b| > 0
    ensures Join(a + b, sep) == Join(a, sep) + [sep] + Join(b, sep)
    decreases |a|
  {
    if |a| == 1 {
      assert (a + b)[1..] == b;
    } else {
      assert (a + b)[1..] == a[1..] + b;
      JoinAppend(a[1..], b, sep);
    }
  }

  // ---------------------------------------------------------------- split

  /** JavaScript `s.split(sep)` for a one-character separator: the pieces
      between separators, empty ones included, so there is always at least one
      piece and `"".split(' ')` is `[""]`. */
  function Split(s: string, sep: char): (r: seq<string>)
    ensures |r| >= 1
    ensures forall i :: 0 <= i < |r| ==> sep !in r[i]
    decreases |s|
  {
    if |s| == 0 then [""]
    else
      var rest := Split(s[1..], sep);
      if s[0] == sep then [""] + rest
      else [[s[0]] + rest[0]] + rest[1..]
  }

  /** Joining the pieces with the separator gives back the string. */
  lemma {:induction false} JoinSplit(s: string, sep: char)
    ensures Join(Split(s, sep), sep) == s
    decreases |s|
  {
    if |s| > 0 {
      var rest := Split(s[1..], sep);
      JoinSplit(s[1..], sep);
      if s[0] == sep {
        assert ([""] + rest)[1..] == rest;
      } else {
        var r := [[s[0]] + rest[0]] + rest[1..];
        if |rest| > 1 {
          assert r[1..] == rest[1..];
          assert Join(rest, sep) == rest[0] + [sep] + Join(rest[1..], sep);
        }
      }
    }
  }

  /** Splitting a join of separator-free pieces gives back the pieces. */
  lemma {:induction false} SplitJoin(pieces: seq<string>, sep: char)
    requires |pieces| >= 1
    requires forall i :: 0 <= i < |pieces| ==> sep !in pieces[i]
    ensures Split(Join(pieces, sep), sep) == pieces
    decreases |pieces|, |pieces[0]|
  {
    var p := pieces[0];
    if |pieces| == 1 {
      SplitOfSeparatorFree(p, sep);
    } else if |p| == 0 {
      var s := Join(pieces, sep);
      assert s == [sep] + Join(pieces[1..], sep);
      assert s[1..] == Join(pieces[1..], sep);
      SplitJoin(pieces[1..], sep);
      assert [""] + pieces[1..] == pieces;
    } else {
      var s := Join(pieces, sep);
      var shorter := [p[1..]] + pieces[1..];
      assert shorter[1..] == pieces[1..];
      assert s[1..] == Join(shorter, sep);
      SplitJoin(shorter, sep);
      assert s[0] == p[0];
      assert [p[0]] + p[1..] == p;
      assert [[p[0]] + p[1..]] + pieces[1..] == [p] + pieces[1..] == pieces;
    }
  }

  lemma {:induction false} SplitOfSeparatorFree(p: string, sep: char)
    requires sep !in p
    ensures Split(p, sep) == [p]
    decreases |p|
  {
    if |p| > 0 {
      SplitOfSeparatorFree(p[1..], sep);
      assert [p[0]] + p[1..] == p;
    }
  }

  // ---------------------------------------------------------------- tokens

  /** Length of the leading run of non-whitespace characters. */
  function RunLength(s: string, isSpace: char -> bool): (n: nat)
    ensures n <= |s|
    ensures forall i :: 0 <= i < n ==> !isSpace(s[i])
    ensures n < |s| ==> isSpace(s[n])
    decreases |s|
  {
    if |s| == 0 || isSpace(s[0]) then 0 else 1 + RunLength(s[1..], isSpace)
  }

  /** The maximal runs of non-whitespace characters, left to right. This is
      both JavaScript `s.split(/\s+/).filter(w => w.trim().length > 0)`
      (splitting on runs and dropping the empty pieces leaves exactly the
      runs) and Python `s.split()`, each with its own whitespace class. */
  function Tokens(s: string, isSpace: char -> bool): (r: seq<string>)
    ensures forall i :: 0 <= i < |r| ==> IsToken(r[i], isSpace)
    decreases |s|
  {
    if |s| == 0 then []
    else if isSpace(s[0]) then Tokens(s[1..], isSpace)
    else
      var n := RunLength(s, isSpace);
      [s[..n]] + Tokens(s[n..], isSpace)
  }

  /** A string has no tokens exactly when it is all whitespace. */
  lemma {:induction false} TokensEmptyIffBlank(s: string, isSpace: char -> bool)
    ensures Tokens(s, isSpace) == [] <==> AllSpace(s, isSpace)
    decreases |s|
  {
    if |s| > 0 && isSpace(s[0]) {
      TokensEmptyIffBlank(s[1..], isSpace);
      assert AllSpace(s, isSpace) <==> AllSpace(s[1..], isSpace) by {
        if AllSpace(s[1..], isSpace) {
          forall i | 0 <= i < |s| ensures isSpace(s[i]) {
            if i > 0 { assert s[i] == s[1..][i - 1]; }
          }
        }
      }
    }
  }

  lemma {:induction false} RunLengthAppend(a: string, rest: string, isSpace: char -> bool)
    requires RunLength(a, isSpace) < |a| || |rest| == 0 || isSpace(rest[0])
    ensures RunLength(a + rest, isSpace) == RunLength(a, isSpace)
    decreases |a|
  {
    if |a| > 0 && !isSpace(a[0]) {
      assert (a + rest)[1..] == a[1..] + rest;
      RunLengthAppend(a[1..], rest, isSpace);
    }
  }

  /** A whitespace character between two strings separates their tokens. */
  lemma {:induction false} TokensAcrossSpace(a: string, c: char, b: string, isSpace: char -> bool)
    requires isSpace(c)
    ensures Tokens(a + [c] + b, isSpace) == Tokens(a, isSpace) + Tokens(b, isSpace)
    decreases |a|
  {
    var s := a + [c] + b;
    if |a| == 0 {
      assert s[1..] == b;
    } else if isSpace(a[0]) {
      assert s[1..] == a[1..] + [c] + b;
      TokensAcrossSpace(a[1..], c, b, isSpace);
    } else {
      var n := RunLength(a, isSpace);
      RunLengthAppend(a, [c] + b, isSpace);
      assert s == a + ([c] + b);
      assert RunLength(s, isSpace) == n;
      assert s[0] == a[0];
      assert Tokens(s, isSpace) == [s[..n]] + Tokens(s[n..], isSpace);
      assert Tokens(a, isSpace) == [a[..n]] + Tokens(a[n..], isSpace);
      assert s[..n] == a[..n];
      assert s[n..] == a[n..] + [c] + b;
      TokensAcrossSpace(a[n..], c, b, isSpace);
    }
  }

  /** Tokenising a space-joined list of tokens gives the list back. */
  lemma {:induction false} TokensOfJoin(ws: seq<string>, isSpace: char -> bool)
    requires isSpace(' ')
    requires forall i :: 0 <= i < |ws| ==> IsToken(ws[i], isSpace)
    ensures Tokens(Join(ws, ' '), isSpace) == ws
    decreases |ws|
  {
    if |ws| == 1 {
      TokenIsOneToken(ws[0], isSpace);
    } else if |ws| > 1 {
      TokensOfJoin(ws[1..], isSpace);
      TokensAcrossSpace(ws[0], ' ', Join(ws[1..], ' '), isSpace);
      TokenIsOneToken(ws[0], isSpace);
      assert [ws[0]] + ws[1..] == ws;
    }
  }

  lemma TokenIsOneToken(w: string, isSpace: char -> bool)
    requires IsToken(w, isSpace)
    ensures Tokens(w, isSpace) == [w]
  {
    RunLengthAppend(w, "", isSpace);
    assert w + "" == w;
    assert w[|w|..] == "";
  }

  // ---------------------------------------------------------------- strip

  /** Drops leading whitespace. */
  function TrimStart(s: string, isSpace: char -> bool): (r: string)
    ensures |r| <= |s|
    ensures |r| > 0 ==> !isSpace(r[0])
    decreases |s|
  {
    if |s| > 0 && isSpace(s[0]) then TrimStart(s[1..], isSpace) else s
  }

  /** What `TrimStart` drops is whitespace, and what it keeps is the tail. */
  lemma {:induction false} TrimStartSlice(s: string, isSpace: char -> bool)
    ensures var r := TrimStart(s, isSpace);
      r == s[|s| - |r|..] && AllSpace(s[..|s| - |r|], isSpace)
    decreases |s|
  {
    if |s| > 0 && isSpace(s[0]) {
      var r := TrimStart(s, isSpace);
      TrimStartSlice(s[1..], isSpace);
      assert s[1..][|s| - 1 - |r|..] == s[|s| - |r|..];
      forall i | 0 < i < |s| - |r| ensures isSpace(s[i]) {
        assert s[1..][..|s| - 1 - |r|][i - 1] == s[i];
      }
    }
  }

  /** Drops trailing whitespace. */
  function TrimEnd(s: string, isSpace: char -> bool): (r: string)
    ensures |r| <= |s|
    ensures |r| > 0 ==> !isSpace(r[|r| - 1])
    decreases |s|
  {
    if |s| > 0 && isSpace(s[|s| - 1]) then TrimEnd(s[..|s| - 1], isSpace) else s
  }

  /** What `TrimEnd` drops is whitespace, and what it keeps is the head. */
  lemma {:induction false} TrimEndSlice(s: string, isSpace: char -> bool)
    ensures var r := TrimEnd(s, isSpace);
      r == s[..|r|] && AllSpace(s[|r|..], isSpace)
    decreases |s|
  {
    if |s| > 0 && isSpace(s[|s| - 1]) {
      var r := TrimEnd(s, isSpace);
      var s' := s[..|s| - 1];
      TrimEndSlice(s', isSpace);
      assert s'[..|r|] == s[..|r|];
      forall i | 0 <= i < |s| - |r| ensures isSpace(s[|r|..][i]) {
        if i < |s| - 1 - |r| {
          assert s[|r|..][i] == s'[|r|..][i];
        }
      }
    }
  }

  /** How many leading whitespace characters `Strip` drops. */
  function StripOffset(s: string, isSpace: char -> bool): nat
  {
    |s| - |TrimStart(s, isSpace)|
  }

  /** JavaScript `trim()` / Python `strip()`: no whitespace at either end,
      and empty exactly when `s` is all whitespace (`StripSlice` adds that
      it is the slice of `s` that starts at `StripOffset`). */
  function Strip(s: string, isSpace: char -> bool): (r: string)
    ensures |r| <= |s|
    ensures Unpadded(r, isSpace)
    ensures r == "" <==> AllSpace(s, isSpace)
  {
    var t := TrimStart(s, isSpace);
    var r := TrimEnd(t, isSpace);
    TrimStartSlice(s, isSpace);
    TrimEndSlice(t, isSpace);
    assert |r| > 0 ==> r[0] == t[0];
    assert r == "" ==> AllSpace(s, isSpace) by {
      if r == "" {
        assert |t| == 0;
        forall i | 0 <= i < |s| ensures isSpace(s[i]) {
          assert s[i] == s[..|s| - |t|][i];
        }
      }
    }
    r
  }

  /** The stripped string is the slice of `s` from `StripOffset` on. */
  lemma StripSlice(s: string, isSpace: char -> bool)
    ensures StripOffset(s, isSpace) + |Strip(s, isSpace)| <= |s|
    ensures Strip(s, isSpace) == s[StripOffset(s, isSpace)..StripOffset(s, isSpace) + |Strip(s, isSpace)|]
  {
    var t := TrimStart(s, isSpace);
    TrimStartSlice(s, isSpace);
    TrimEndSlice(t, isSpace);
    assert Strip(s, isSpace) == s[|s| - |t|..][..|Strip(s, isSpace)|];
  }

  /** Stripping a string without whitespace at its ends changes nothing. */
  lemma StripUnpadded(s: string, isSpace: char -> bool)
    requires Unpadded(s, isSpace)
    ensures Strip(s, isSpace) == s
  {
  }

  /** Stripping is idempotent. */
  lemma StripIdempotent(s: string, isSpace: char -> bool)
    ensures Strip(Strip(s, isSpace), isSpace) == Strip(s, isSpace)
  {
    StripUnpadded(Strip(s, isSpace), isSpace);
  }

  /** Dropping leading whitespace keeps the tokens. */
  lemma {:induction false} TokensTrimStart(s: string, isSpace: char -> bool)
    ensures Tokens(TrimStart(s, isSpace), isSpace) == Tokens(s, isSpace)
    decreases |s|
  {
    if |s| > 0 && isSpace(s[0]) {
      TokensTrimStart(s[1..], isSpace);
    }
  }

  /** Whitespace at the end carries no token. */
  lemma TokensTrailingSpace(a: string, w: string, isSpace: char -> bool)
    requires AllSpace(w, isSpace)
    ensures Tokens(a + w, isSpace) == Tokens(a, isSpace)
  {
    if |w| > 0 {
      assert a + w == a + [w[0]] + w[1..];
      TokensAcrossSpace(a, w[0], w[1..], isSpace);
      assert AllSpace(w[1..], isSpace) by {
        forall i | 0 <= i < |w| - 1 ensures isSpace(w[1..][i]) {
          assert w[1..][i] == w[i + 1];
        }
      }
      TokensEmptyIffBlank(w[1..], isSpace);
    } else {
      assert a + w == a;
    }
  }

  /** Dropping trailing whitespace keeps the tokens. */
  lemma TokensTrimEnd(s: string, isSpace: char -> bool)
    ensures Tokens(TrimEnd(s, isSpace), isSpace) == Tokens(s, isSpace)
  {
    var r := TrimEnd(s, isSpace);
    TrimEndSlice(s, isSpace);
    assert s == r + s[|r|..];
    TokensTrailingSpace(r, s[|r|..], isSpace);
  }

  /** Stripping drops whitespace only: the words are unchanged. */
  lemma TokensOfStrip(s: string, isSpace: char -> bool)
    ensures Tokens(Strip(s, isSpace), isSpace) == Tokens(s, isSpace)
  {
    TokensTrimStart(s, isSpace);
    TokensTrimEnd(TrimStart(s, isSpace), isSpace);
  }

  // ---------------------------------------------------------------- collapse

  /** Every whitespace character is a plain space and no two are adjacent. */
  predicate Collapsed(s: string, isSpace: char -> bool) {
    && (forall i :: 0 <= i < |s| && isSpace(s[i]) ==> s[i] == ' ')
    && (forall i :: 0 <= i < |s| - 1 ==> !(isSpace(s[i]) && isSpace(s[i + 1])))
  }

  /** Python `re.sub(r'\s+', ' ', s)`: every maximal whitespace run becomes a
      single space; all other characters are kept in order. */
  function Collapse(s: string, isSpace: char -> bool): (r: string)
    ensures forall i :: 0 <= i < |r| ==> r[i] == ' ' || r[i] in s
    ensures |s| > 0 ==> |r| > 0 && (if isSpace(s[0]) then r[0] == ' ' else r[0] == s[0])
    ensures Collapsed(r, isSpace)
    decreases |s|
  {
    if |s| == 0 then ""
    else if isSpace(s[0]) then
      TrimStartSlice(s, isSpace);
      [' '] + Collapse(TrimStart(s, isSpace), isSpace)
    else [s[0]] + Collapse(s[1..], isSpace)
  }

  /** A leading run of non-whitespace characters passes through collapsing
      unchanged. */
  lemma {:induction false} CollapseRun(s: string, isSpace: char -> bool)
    ensures Collapse(s, isSpace)
      == s[..RunLength(s, isSpace)] + Collapse(s[RunLength(s, isSpace)..], isSpace)
    decreases |s|
  {
    var n := RunLength(s, isSpace);
    if n > 0 {
      var t := s[1..];
      var m := RunLength(t, isSpace);
      CollapseRun(t, isSpace);
      assert t[m..] == s[n..];
      ConsRun(s, n, Collapse(t, isSpace), Collapse(s[n..], isSpace));
    }
  }

  lemma ConsRun(s: string, n: nat, tail: string, rest: string)
    requires 0 < n <= |s| && tail == s[1..][..n - 1] + rest
    ensures [s[0]] + tail == s[..n] + rest
  {
    assert [s[0]] + s[1..][..n - 1] == s[..n];
  }

  /** A word followed by nothing or by whitespace is read as that word
      followed by the words of the rest. */
  lemma TokensWordThenGap(w: string, c: string, isSpace: char -> bool)
    requires IsToken(w, isSpace)
    requires c == "" || isSpace(c[0])
    ensures Tokens(w + c, isSpace) == [w] + Tokens(c, isSpace)
  {
    TokenIsOneToken(w, isSpace);
    if c == "" {
      assert w + c == w;
    } else {
      assert w + c == w + [c[0]] + c[1..];
      TokensAcrossSpace(w, c[0], c[1..], isSpace);
    }
  }

  /** Collapsing whitespace keeps every word, in order (the replacement space
      must itself count as whitespace). */
  lemma {:induction false} TokensOfCollapse(s: string, isSpace: char -> bool)
    requires isSpace(' ')
    ensures Tokens(Collapse(s, isSpace), isSpace) == Tokens(s, isSpace)
    decreases |s|
  {
    if |s| > 0 {
      if isSpace(s[0]) {
        var t := TrimStart(s, isSpace);
        assert t == TrimStart(s[1..], isSpace);
        TokensOfCollapse(t, isSpace);
        TokensTrimStart(s, isSpace);
        assert ([' '] + Collapse(t, isSpace))[1..] == Collapse(t, isSpace);
      } else {
        var n := RunLength(s, isSpace);
        CollapseRun(s, isSpace);
        TokensOfCollapse(s[n..], isSpace);
        TokensWordThenGap(s[..n], Collapse(s[n..], isSpace), isSpace);
      }
    }
  }

  /** A collapsed string is left as it is (the space must itself count as
      whitespace). */
  lemma {:induction false} CollapseCollapsed(s: string, isSpace: char -> bool)
    requires isSpace(' ')
    requires Collapsed(s, isSpace)
    ensures Collapse(s, isSpace) == s
    decreases |s|
  {
    if |s| > 0 {
      assert Collapsed(s[1..], isSpace);
      if isSpace(s[0]) {
        assert TrimStart(s, isSpace) == s[1..];
      }
      CollapseCollapsed(s[1..], isSpace);
    }
  }

  /** Taking a slice keeps a string collapsed. */
  lemma CollapsedSlice(s: string, i: nat, j: nat, isSpace: char -> bool)
    requires i <= j <= |s|
    requires Collapsed(s, isSpace)
    ensures Collapsed(s[i..j], isSpace)
  {
    var t := s[i..j];
    forall k | 0 <= k < |t| - 1 ensures !(isSpace(t[k]) && isSpace(t[k + 1])) {
      assert t[k] == s[i + k] && t[k + 1] == s[i + k + 1];
    }
  }

  /** Stripping keeps a string collapsed. */
  lemma StripCollapsed(s: string, isSpace: char -> bool)
    requires Collapsed(s, isSpace)
    ensures Collapsed(Strip(s, isSpace), isSpace)
  {
    var a := StripOffset(s, isSpace);
    StripSlice(s, isSpace);
    CollapsedSlice(s, a, a + |Strip(s, isSpace)|, isSpace);
  }
}
