/** The JavaScript string built-ins the reply clean-up and the prompt assembly rely on:
    `String.prototype.replace` with a global regular expression whose match is replaced
    by the empty string, `String.prototype.trim` and `Array.prototype.join`. */
module Text {

  // ---------------------------------------------------------------------------
  // Global removal of a literal pattern, optionally ignoring ASCII case
  // ---------------------------------------------------------------------------

  /** ASCII lower-casing. A regular expression with the `i` flag and without the `u`
      flag never lets a non-ASCII character match an ASCII one, so for an ASCII
      pattern case folding is exactly this. */
  function LowerAscii(c: char): char {
    if 'A' <= c <= 'Z' then (c as int + 32) as char else c
  }

  predicate CharMatches(c: char, p: char, ignoreCase: bool) {
    if ignoreCase then LowerAscii(c) == LowerAscii(p) else c == p
  }

  /** `pat` occurs in `s` at index `i`. */
  predicate MatchesAt(s: string, i: nat, pat: string, ignoreCase: bool) {
    i + |pat| <= |s| &&
    forall k :: 0 <= k < |pat| ==> CharMatches(s[i + k], pat[k], ignoreCase)
  }

  /** `s.replace(/pat/g, "")` (with the `i` flag when `ignoreCase`): the string is scanned
      from the left; at each position where `pat` matches, the match is dropped and the
      scan resumes after it, otherwise the character is kept. */
  function RemoveMatches(s: string, pat: string, ignoreCase: bool): (r: string)
    requires pat != []
    ensures |r| <= |s|
    decreases |s|
  {
    if s == [] then []
    else if MatchesAt(s, 0, pat, ignoreCase) then RemoveMatches(s[|pat|..], pat, ignoreCase)
    else [s[0]] + RemoveMatches(s[1..], pat, ignoreCase)
  }

  /** Removal only deletes: every character of the result comes from the input, no more
      often than it occurs there. */
  lemma {:induction false} RemoveMatchesOnlyDeletes(s: string, pat: string, ignoreCase: bool)
    requires pat != []
    ensures multiset(RemoveMatches(s, pat, ignoreCase)) <= multiset(s)
    decreases |s|
  {
    if s != [] {
      if MatchesAt(s, 0, pat, ignoreCase) {
        RemoveMatchesOnlyDeletes(s[|pat|..], pat, ignoreCase);
        assert s == s[..|pat|] + s[|pat|..];
      } else {
        RemoveMatchesOnlyDeletes(s[1..], pat, ignoreCase);
        assert s == [s[0]] + s[1..];
      }
    }
  }

  /** A match cannot start at a character that differs from the pattern's first one. */
  lemma FirstCharBlocksMatch(s: string, i: nat, pat: string, ignoreCase: bool)
    requires pat != [] && i < |s| && !CharMatches(s[i], pat[0], ignoreCase)
    ensures !MatchesAt(s, i, pat, ignoreCase)
  {
    assert !CharMatches(s[i + 0], pat[0], ignoreCase);
  }

  /** Where no match starts, removal keeps the string as it is. */
  lemma {:induction false} RemoveMatchesNoMatch(s: string, pat: string, ignoreCase: bool)
    requires pat != []
    requires forall i :: 0 <= i < |s| ==> !MatchesAt(s, i, pat, ignoreCase)
    ensures RemoveMatches(s, pat, ignoreCase) == s
    decreases |s|
  {
    if s != [] {
      var t := s[1..];
      forall i | 0 <= i < |t|
        ensures !MatchesAt(t, i, pat, ignoreCase)
      {
        assert !MatchesAt(s, i + 1, pat, ignoreCase);
      }
      RemoveMatchesNoMatch(t, pat, ignoreCase);
      assert !MatchesAt(s, 0, pat, ignoreCase);
      RemoveMatchesKeep(s, pat, ignoreCase);
      assert s == [s[0]] + t;
    }
  }

  /** Removal distributes over a left part that holds no character a match could start with. */
  lemma {:induction false} RemoveMatchesKeepsPrefix(s: string, t: string, pat: string, ignoreCase: bool)
    requires pat != []
    requires forall i :: 0 <= i < |s| ==> !CharMatches(s[i], pat[0], ignoreCase)
    ensures RemoveMatches(s + t, pat, ignoreCase) == s + RemoveMatches(t, pat, ignoreCase)
    decreases |s|
  {
    if s != [] {
      assert (s + t)[0] == s[0];
      FirstCharBlocksMatch(s + t, 0, pat, ignoreCase);
      RemoveMatchesKeep(s + t, pat, ignoreCase);
      assert (s + t)[1..] == s[1..] + t;
      RemoveMatchesKeepsPrefix(s[1..], t, pat, ignoreCase);
      assert s == [s[0]] + s[1..];
    } else {
      assert s + t == t;
    }
  }

  // ---------------------------------------------------------------------------
  // Code fences
  // ---------------------------------------------------------------------------

  const Fence: string := "```"

  /** A fence at `i` is three backticks in a row. */
  lemma FenceAt(s: string, i: nat)
    ensures MatchesAt(s, i, Fence, false) <==>
      i + 3 <= |s| && s[i] == '`' && s[i + 1] == '`' && s[i + 2] == '`'
  {
    if i + 3 <= |s| && s[i] == '`' && s[i + 1] == '`' && s[i + 2] == '`' {
      forall k | 0 <= k < 3 ensures CharMatches(s[i + k], Fence[k], false) {
        assert Fence[k] == '`';
      }
    }
    if MatchesAt(s, i, Fence, false) {
      assert CharMatches(s[i + 0], Fence[0], false);
      assert CharMatches(s[i + 1], Fence[1], false);
      assert CharMatches(s[i + 2], Fence[2], false);
    }
  }

  /** After every "```" is removed, no "```" is left: a kept backtick is never
      followed by two more, because the scan would have matched there. */
  lemma {:induction false} RemoveFencesLeavesNone(s: string)
    ensures forall i :: 0 <= i ==> !MatchesAt(RemoveMatches(s, Fence, false), i, Fence, false)
    decreases |s|
  {
    var r := RemoveMatches(s, Fence, false);
    if s == [] {
    } else if MatchesAt(s, 0, Fence, false) {
      RemoveFencesLeavesNone(s[3..]);
    } else {
      var t := s[1..];
      var r' := RemoveMatches(t, Fence, false);
      assert r == [s[0]] + r';
      RemoveFencesLeavesNone(t);
      forall i | 0 <= i ensures !MatchesAt(r, i, Fence, false) {
        FenceAt(r, i);
        if i == 0 {
          if s[0] == '`' {
            // a kept backtick is not followed by two more in the rest of the scan
            FenceAt(s, 0);
            NoDoubleTickStart(t);
          }
        } else {
          FenceAt(r', i - 1);
        }
      }
    }
  }

  /** The second pass takes off the closing fence after a middle with no "```" in it.
      When the middle ends in one or two backticks the scan drops the first three
      backticks of the run instead, which leaves the same text. */
  lemma {:induction false} FencePass(m: string)
    requires forall i :: 0 <= i ==> !MatchesAt(m, i, Fence, false)
    ensures RemoveMatches(m + Fence, Fence, false) == m
    decreases |m|
  {
    if |m| < 3 && forall k :: 0 <= k < |m| ==> m[k] == '`' {
      BacktickRunPass(m);
    } else {
      NoFenceAtFront(m);
      var t := m[1..];
      RemoveMatchesKeep(m + Fence, Fence, false);
      assert (m + Fence)[1..] == t + Fence;
      forall i | 0 <= i ensures !MatchesAt(t, i, Fence, false) {
        FenceAt(t, i);
        FenceAt(m, i + 1);
      }
      FencePass(t);
      assert m == [m[0]] + t;
    }
  }

  /** Unless the middle is a short run of backticks, no fence starts at the front of the
      middle followed by the closing fence. */
  lemma NoFenceAtFront(m: string)
    requires forall i :: 0 <= i ==> !MatchesAt(m, i, Fence, false)
    requires !(|m| < 3 && forall k :: 0 <= k < |m| ==> m[k] == '`')
    ensures m != [] && !MatchesAt(m + Fence, 0, Fence, false)
  {
    var s := m + Fence;
    FenceAt(m, 0);
    FenceAt(s, 0);
    if |m| < 3 {
      var k :| 0 <= k < |m| && m[k] != '`';
      assert s[k] == m[k];
    } else {
      assert s[0] == m[0] && s[1] == m[1] && s[2] == m[2];
    }
  }

  /** Where no match starts at the front, the first character is kept and the scan moves on. */
  lemma RemoveMatchesKeep(s: string, pat: string, ignoreCase: bool)
    requires pat != [] && s != [] && !MatchesAt(s, 0, pat, ignoreCase)
    ensures RemoveMatches(s, pat, ignoreCase) == [s[0]] + RemoveMatches(s[1..], pat, ignoreCase)
  {
  }

  /** Fewer than three backticks followed by the closing fence lose exactly three of them. */
  lemma BacktickRunPass(m: string)
    requires |m| < 3 && forall k :: 0 <= k < |m| ==> m[k] == '`'
    ensures RemoveMatches(m + Fence, Fence, false) == m
  {
    TicksBeforeFence(m);
    RemoveMatchesSkip(m + Fence, Fence, false);
    RemoveMatchesNoMatch(m, Fence, false);
  }

  /** Fewer than three backticks and a fence: a fence starts at once, and what follows it
      is as many backticks as came before. */
  lemma TicksBeforeFence(m: string)
    requires |m| < 3 && forall k :: 0 <= k < |m| ==> m[k] == '`'
    ensures MatchesAt(m + Fence, 0, Fence, false) && (m + Fence)[|Fence|..] == m
    ensures forall i :: 0 <= i < |m| ==> !MatchesAt(m, i, Fence, false)
  {
    var s := m + Fence;
    FenceAt(Fence, 0);
    assert |Fence| == 3;
    forall k | 0 <= k < |s| ensures s[k] == '`' {
      if k >= |m| {
        assert s[k] == Fence[k - |m|];
      }
    }
    FenceAt(s, 0);
    assert s[3..] == m;
  }

  /** A match at the front is dropped and the scan resumes after it. */
  lemma RemoveMatchesSkip(s: string, pat: string, ignoreCase: bool)
    requires pat != [] && MatchesAt(s, 0, pat, ignoreCase)
    ensures RemoveMatches(s, pat, ignoreCase) == RemoveMatches(s[|pat|..], pat, ignoreCase)
  {
  }

  /** A string that does not start with two backticks keeps that property under fence removal. */
  lemma NoDoubleTickStart(t: string)
    requires !(|t| >= 2 && t[0] == '`' && t[1] == '`')
    ensures var r := RemoveMatches(t, Fence, false);
      !(|r| >= 2 && r[0] == '`' && r[1] == '`')
  {
    var r := RemoveMatches(t, Fence, false);
    if t != [] {
      FenceAt(t, 0);
      assert r == [t[0]] + RemoveMatches(t[1..], Fence, false);
      if t[0] == '`' && |t| >= 2 {
        var u := t[1..];
        assert !MatchesAt(u, 0, Fence, false) by { FenceAt(u, 0); }
        assert RemoveMatches(u, Fence, false) == [u[0]] + RemoveMatches(u[1..], Fence, false);
      }
    }
  }

  // ---------------------------------------------------------------------------
  // trim
  // ---------------------------------------------------------------------------

  /** The characters `String.prototype.trim` strips: WhiteSpace (tab, vertical tab,
      form feed, the byte order mark and every space separator) and LineTerminator. */
  predicate IsWhitespace(c: char) {
    c == '\t' || c == '\n' || c == '\U{B}' || c == '\U{C}' || c == '\r' || c == ' ' ||
    c == '\U{A0}' || c == '\U{1680}' || ('\U{2000}' <= c <= '\U{200A}') ||
    c == '\U{2028}' || c == '\U{2029}' || c == '\U{202F}' || c == '\U{205F}' ||
    c == '\U{3000}' || c == '\U{FEFF}'
  }

  predicate AllWhitespace(s: string) {
    forall i :: 0 <= i < |s| ==> IsWhitespace(s[i])
  }

  /** Neither end of `s` is whitespace. */
  predicate Trimmed(s: string) {
    s == [] || (!IsWhitespace(s[0]) && !IsWhitespace(s[|s| - 1]))
  }

  /** Drops the leading whitespace: the result is the suffix of `s` left after a
      whitespace-only prefix, and it does not start with whitespace. */
  function TrimStart(s: string): (r: string)
    ensures |r| <= |s| && r == s[|s| - |r|..]
    ensures forall i :: 0 <= i < |s| - |r| ==> IsWhitespace(s[i])
    ensures r == [] || !IsWhitespace(r[0])
  {
    if s != [] && IsWhitespace(s[0]) then
      var r := TrimStart(s[1..]);
      assert s[1..][|s| - 1 - |r|..] == s[|s| - |r|..];
      r
    else s
  }

  /** Drops the trailing whitespace: the result is the prefix of `s` left before a
      whitespace-only suffix, and it does not end with whitespace. */
  function TrimEnd(s: string): (r: string)
    ensures |r| <= |s| && r == s[..|r|]
    ensures forall i :: |r| <= i < |s| ==> IsWhitespace(s[i])
    ensures r == [] || !IsWhitespace(r[|r| - 1])
  {
    if s != [] && IsWhitespace(s[|s| - 1]) then
      var r := TrimEnd(s[..|s| - 1]);
      assert s[..|s| - 1][..|r|] == s[..|r|];
      r
    else s
  }

  /** `s.trim()`: whitespace at neither end. */
  function Trim(s: string): (r: string)
    ensures Trimmed(r)
  {
    var a := TrimStart(s);
    var r := TrimEnd(a);
    assert Trimmed(r) by {
      if r != [] { assert r[0] == a[0]; }
    }
    r
  }

  /** `trim` keeps a slice of the string, starting at `k`, and drops only whitespace
      before and after it. */
  lemma TrimOffset(s: string) returns (k: nat)
    ensures k + |Trim(s)| <= |s| && Trim(s) == s[k..k + |Trim(s)|]
    ensures AllWhitespace(s[..k]) && AllWhitespace(s[k + |Trim(s)|..])
  {
    var a := TrimStart(s);
    var r := TrimEnd(a);
    k := |s| - |a|;
    WhitespaceAround(s, k, a, r);
    assert Trim(s) == r;
  }

  /** A prefix `r` of the suffix `a` of `s` at `k`, with only whitespace before `a` and
      after `r`, is the slice of `s` at `k` with only whitespace around it. */
  lemma WhitespaceAround(s: string, k: nat, a: string, r: string)
    requires k <= |s| && a == s[k..]
    requires |r| <= |a| && r == a[..|r|]
    requires forall i :: 0 <= i < k ==> IsWhitespace(s[i])
    requires forall i :: |r| <= i < |a| ==> IsWhitespace(a[i])
    ensures k + |r| <= |s| && r == s[k..k + |r|]
    ensures AllWhitespace(s[..k]) && AllWhitespace(s[k + |r|..])
  {
    assert s[k + |r|..] == a[|r|..];
  }

  /** What `trim` strips is exactly the whitespace around a trimmed core. */
  lemma {:induction false} TrimSurrounded(w1: string, b: string, w2: string)
    requires AllWhitespace(w1) && AllWhitespace(w2) && Trimmed(b)
    ensures Trim(w1 + b + w2) == b
  {
    var s := w1 + b + w2;
    if b == [] {
      assert s == (w1 + w2) + [];
      assert AllWhitespace(w1 + w2);
      TrimStartDrops(w1 + w2, []);
    } else {
      assert s == w1 + (b + w2);
      TrimStartDrops(w1, b + w2);
      TrimEndDrops(b, w2);
    }
  }

  lemma {:induction false} TrimStartDrops(w: string, t: string)
    requires AllWhitespace(w)
    requires t == [] || !IsWhitespace(t[0])
    ensures TrimStart(w + t) == t
    decreases |w|
  {
    if w != [] {
      assert (w + t)[1..] == w[1..] + t;
      TrimStartDrops(w[1..], t);
    } else {
      assert w + t == t;
    }
  }

  lemma {:induction false} TrimEndDrops(t: string, w: string)
    requires AllWhitespace(w)
    requires t == [] || !IsWhitespace(t[|t| - 1])
    ensures TrimEnd(t + w) == t
    decreases |w|
  {
    if w != [] {
      var s := t + w;
      assert s[|s| - 1] == w[|w| - 1];
      assert s[..|s| - 1] == t + w[..|w| - 1];
      TrimEndDrops(t, w[..|w| - 1]);
    } else {
      assert t + w == t;
    }
  }

  /** A trimmed string has no fence that its source did not have. */
  lemma NoFenceAfterTrim(s: string)
    requires forall i :: 0 <= i ==> !MatchesAt(s, i, Fence, false)
    ensures forall i :: 0 <= i ==> !MatchesAt(Trim(s), i, Fence, false)
  {
    var k := TrimOffset(s);
    NoFenceInSlice(s, k, k + |Trim(s)|);
  }

  lemma NoFenceInSlice(s: string, lo: nat, hi: nat)
    requires lo <= hi <= |s|
    requires forall i :: 0 <= i ==> !MatchesAt(s, i, Fence, false)
    ensures forall i :: 0 <= i ==> !MatchesAt(s[lo..hi], i, Fence, false)
  {
    var r := s[lo..hi];
    forall i | 0 <= i ensures !MatchesAt(r, i, Fence, false) {
      FenceAt(r, i);
      FenceAt(s, lo + i);
    }
  }

  // ---------------------------------------------------------------------------
  // join
  // ---------------------------------------------------------------------------

  /** `items.join(sep)`. */
  function Join(items: seq<string>, sep: string): string {
    if items == [] then ""
    else if |items| == 1 then items[0]
    else items[0] + sep + Join(items[1..], sep)
  }

  /** Index in `Join(items, sep)` where entry `i` begins: every earlier entry and one separator after each. */
  function EntryOffset(items: seq<string>, sep: string, i: nat): nat
    requires i <= |items|
  {
    if i == 0 then 0 else |items[0]| + |sep| + EntryOffset(items[1..], sep, i - 1)
  }

  /** Each entry begins one separator after the end of the previous one. */
  lemma {:induction false} EntryOffsetStep(items: seq<string>, sep: string, i: nat)
    requires i < |items|
    ensures EntryOffset(items, sep, i + 1) == EntryOffset(items, sep, i) + |items[i]| + |sep|
    decreases i
  {
    if i > 0 {
      EntryOffsetStep(items[1..], sep, i - 1);
    }
  }

  /** The joined string ends with the last entry. */
  lemma {:induction false} JoinLength(items: seq<string>, sep: string)
    requires items != []
    ensures |Join(items, sep)| == EntryOffset(items, sep, |items| - 1) + |items[|items| - 1]|
    decreases |items|
  {
    if |items| > 1 {
      JoinLength(items[1..], sep);
    }
  }

  /** Entry `i` stands in the joined string at its offset. */
  lemma {:induction false} JoinEntry(items: seq<string>, sep: string, i: nat)
    requires i < |items|
    ensures EntryOffset(items, sep, i) + |items[i]| <= |Join(items, sep)|
    ensures Join(items, sep)[EntryOffset(items, sep, i)..EntryOffset(items, sep, i) + |items[i]|] == items[i]
    decreases |items|
  {
    if |items| > 1 {
      var j := Join(items, sep);
      var head := items[0] + sep;
      var jr := Join(items[1..], sep);
      assert j == head + jr;
      if i == 0 {
        assert j[0..|items[0]|] == items[0];
      } else {
        JoinEntry(items[1..], sep, i - 1);
        var o := EntryOffset(items[1..], sep, i - 1);
        assert EntryOffset(items, sep, i) == |head| + o;
        SliceAfter(head, jr, o, o + |items[i]|);
      }
    }
  }

  /** Between entry `i` and entry `i + 1` the joined string holds exactly one separator. */
  lemma {:induction false} JoinSeparator(items: seq<string>, sep: string, i: nat)
    requires i + 1 < |items|
    ensures EntryOffset(items, sep, i + 1) == EntryOffset(items, sep, i) + |items[i]| + |sep|
    ensures EntryOffset(items, sep, i + 1) <= |Join(items, sep)|
    ensures Join(items, sep)[EntryOffset(items, sep, i) + |items[i]|..EntryOffset(items, sep, i + 1)] == sep
    decreases |items|
  {
    EntryOffsetStep(items, sep, i);
    var j := Join(items, sep);
    var head := items[0] + sep;
    var jr := Join(items[1..], sep);
    assert j == head + jr;
    if i == 0 {
      assert j[|items[0]|..|head|] == sep;
    } else {
      JoinSeparator(items[1..], sep, i - 1);
      var o := EntryOffset(items[1..], sep, i - 1) + |items[i]|;
      assert EntryOffset(items, sep, i) + |items[i]| == |head| + o;
      SliceAfter(head, jr, o, o + |sep|);
    }
  }

  /** Slicing past a known prefix slices the rest. */
  lemma SliceAfter(a: string, c: string, x: nat, y: nat)
    requires x <= y <= |c|
    ensures (a + c)[|a| + x..|a| + y] == c[x..y]
  {
  }
}
