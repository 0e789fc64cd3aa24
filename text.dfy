/** The string operations the controller takes from Foundation: lower-casing,
    trimming whitespace and newlines, splitting on a separator, joining, and
    substring search, written out over `seq<char>`. */
module Text {

  /** The scalars of Foundation's `whitespacesAndNewlines` character set:
      tab, the line breaks U+000A to U+000D and U+0085, and the separators of
      Unicode general category Z (space, no-break space, the U+2000 block,
      line and paragraph separator, and the rest of Zs). */
  predicate IsWhitespace(c: char) {
    || c == '\t'
    || '\n' <= c <= '\r'
    || c == ' '
    || c == '\U{0085}'
    || c == '\U{00A0}'
    || c == '\U{1680}'
    || '\U{2000}' <= c <= '\U{200A}'
    || c == '\U{2028}'
    || c == '\U{2029}'
    || c == '\U{202F}'
    || c == '\U{205F}'
    || c == '\U{3000}'
  }

  predicate IsUpper(c: char) {
    'A' <= c <= 'Z'
  }

  /** Lower-cases one ASCII letter and leaves every other character alone. */
  function LowerChar(c: char): (r: char)
    ensures !IsUpper(r)
    ensures !IsUpper(c) ==> r == c
    ensures IsUpper(c) ==> 'a' <= r <= 'z' && r as int - c as int == 'a' as int - 'A' as int
  {
    if IsUpper(c) then (c as int - 'A' as int + 'a' as int) as char else c
  }

  /** `String.lowercased()`, restricted to ASCII letters. */
  function Lower(s: string): (r: string)
    ensures |r| == |s|
    ensures forall i :: 0 <= i < |s| ==> r[i] == LowerChar(s[i])
  {
    seq(|s|, i requires 0 <= i < |s| => LowerChar(s[i]))
  }

  /** Lower-casing leaves no upper-case letter, keeps whitespace and commas
      where they were, and a second application changes nothing. */
  lemma LowerProperties(s: string)
    ensures forall i :: 0 <= i < |s| ==> !IsUpper(Lower(s)[i])
    ensures forall i :: 0 <= i < |s| ==> (IsWhitespace(Lower(s)[i]) <==> IsWhitespace(s[i]))
    ensures forall i :: 0 <= i < |s| ==> (Lower(s)[i] == ',' <==> s[i] == ',')
    ensures Lower(Lower(s)) == Lower(s)
  {
  }

  /** Lower-casing introduces no character other than a lower-case letter. */
  lemma LowerKeepsOut(s: string, c: char)
    requires c !in s && !('a' <= c <= 'z')
    ensures c !in Lower(s)
  {
  }

  /** The first position at or after `i` that does not hold whitespace, or
      the length of `s` when there is none. */
  function SkipLeading(s: string, i: nat): (r: nat)
    requires i <= |s|
    ensures i <= r <= |s|
    ensures r == |s| || !IsWhitespace(s[r])
    decreases |s| - i
  {
    if i < |s| && IsWhitespace(s[i]) then SkipLeading(s, i + 1) else i
  }

  /** Everything `SkipLeading` steps over is whitespace. */
  lemma {:induction false} SkipLeadingWhitespace(s: string, i: nat)
    requires i <= |s|
    ensures forall k :: i <= k < SkipLeading(s, i) ==> IsWhitespace(s[k])
    decreases |s| - i
  {
    if i < |s| && IsWhitespace(s[i]) {
      SkipLeadingWhitespace(s, i + 1);
    }
  }

  /** The end of `s[lo..j]` once its trailing whitespace is dropped: the
      last position, not below `lo`, after a character that is not
      whitespace. */
  function SkipTrailing(s: string, lo: nat, j: nat): (r: nat)
    requires lo <= j <= |s|
    ensures lo <= r <= j
    ensures r == lo || !IsWhitespace(s[r - 1])
    decreases j - lo
  {
    if lo < j && IsWhitespace(s[j - 1]) then SkipTrailing(s, lo, j - 1) else j
  }

  /** Everything `SkipTrailing` steps over is whitespace. */
  lemma {:induction false} SkipTrailingWhitespace(s: string, lo: nat, j: nat)
    requires lo <= j <= |s|
    ensures forall k :: SkipTrailing(s, lo, j) <= k < j ==> IsWhitespace(s[k])
    decreases j - lo
  {
    if lo < j && IsWhitespace(s[j - 1]) {
      SkipTrailingWhitespace(s, lo, j - 1);
    }
  }

  /** `String.trimmingCharacters(in: .whitespacesAndNewlines)`: the slice
      left once the leading and then the trailing whitespace is dropped. */
  function Trim(s: string): (r: string)
    ensures |r| <= |s|
  {
    var lo := SkipLeading(s, 0);
    s[lo..SkipTrailing(s, lo, |s|)]
  }

  /** Trimming keeps the slice of `s` that starts after its leading
      whitespace: whitespace lies only outside that slice and at neither of
      its ends, and the result is empty exactly when `s` is all whitespace. */
  lemma TrimProperties(s: string)
    ensures var r, lo := Trim(s), SkipLeading(s, 0);
      && OccursAt(s, r, lo)
      && (forall i :: 0 <= i < lo ==> IsWhitespace(s[i]))
      && (forall i :: lo + |r| <= i < |s| ==> IsWhitespace(s[i]))
    ensures Trim(s) == [] || (!IsWhitespace(Trim(s)[0]) && !IsWhitespace(Trim(s)[|Trim(s)| - 1]))
    ensures Trim(s) == [] <==> forall i :: 0 <= i < |s| ==> IsWhitespace(s[i])
  {
    var lo := SkipLeading(s, 0);
    var hi := SkipTrailing(s, lo, |s|);
    SkipLeadingWhitespace(s, 0);
    SkipTrailingWhitespace(s, lo, |s|);
    assert Trim(s) == s[lo..hi];
    TrimEnds(s);
  }

  /** The trimmed string starts and ends with a character that is not
      whitespace, unless it is empty. */
  lemma TrimEnds(s: string)
    ensures Trim(s) == [] || (!IsWhitespace(Trim(s)[0]) && !IsWhitespace(Trim(s)[|Trim(s)| - 1]))
  {
    var lo := SkipLeading(s, 0);
    var hi := SkipTrailing(s, lo, |s|);
    var r := s[lo..hi];
    assert Trim(s) == r;
    if r != [] {
      assert r[0] == s[lo] && r[|r| - 1] == s[hi - 1];
    }
  }

  /** Trimming adds no character the string did not hold. */
  lemma TrimKeepsOut(s: string, c: char)
    requires c !in s
    ensures c !in Trim(s)
  {
    var lo := SkipLeading(s, 0);
    var r := Trim(s);
    assert forall i :: 0 <= i < |r| ==> r[i] == s[lo + i];
  }

  /** A string with whitespace at neither end is left as it is by trimming. */
  lemma TrimFixed(s: string)
    requires s == [] || (!IsWhitespace(s[0]) && !IsWhitespace(s[|s| - 1]))
    ensures Trim(s) == s
  {
  }

  /** `String.components(separatedBy:)` for a one-character separator: the
      pieces between separators, empty ones included; there is always at
      least one piece. */
  function Split(s: string, sep: char): (r: seq<string>)
    ensures |r| >= 1
    ensures forall i :: 0 <= i < |r| ==> sep !in r[i]
  {
    if s == [] then [[]]
    else
      var rest := Split(s[1..], sep);
      if s[0] == sep then [[]] + rest else [[s[0]] + rest[0]] + rest[1..]
  }

  /** The pieces, in order, with one separator between neighbours: the form
      of the comma-separated lists the controller builds by hand, and the
      inverse of `Split`. */
  function Join(parts: seq<string>, sep: char): (r: string)
    requires |parts| >= 1
    ensures parts[0] <= r
  {
    if |parts| == 1 then parts[0] else parts[0] + [sep] + Join(parts[1..], sep)
  }

  /** Joining the pieces of a split gives back the original string. */
  lemma {:induction false} JoinSplit(s: string, sep: char)
    ensures Join(Split(s, sep), sep) == s
  {
    if s != [] {
      var rest := Split(s[1..], sep);
      JoinSplit(s[1..], sep);
      if s[0] != sep {
        if |rest| > 1 {
          assert rest == [rest[0]] + rest[1..];
        }
      }
    }
  }

  /** Splitting `a + [sep] + b` yields `a` as its own piece in front of the
      pieces of `b`, provided `a` holds no separator. */
  lemma {:induction false} SplitPrepend(a: string, sep: char, b: string)
    requires sep !in a
    ensures Split(a + [sep] + b, sep) == [a] + Split(b, sep)
  {
    if a == [] {
      assert ([sep] + b)[1..] == b;
    } else {
      SplitPrepend(a[1..], sep, b);
      assert (a + [sep] + b)[1..] == a[1..] + [sep] + b;
      assert [a[0]] + a[1..] == a;
    }
  }

  /** A string holding no separator splits into itself alone. */
  lemma {:induction false} SplitSingle(a: string, sep: char)
    requires sep !in a
    ensures Split(a, sep) == [a]
  {
    if a != [] {
      SplitSingle(a[1..], sep);
      assert [a[0]] + a[1..] == a;
    }
  }

  /** Splitting a join of separator-free pieces gives back the pieces. */
  lemma {:induction false} SplitJoin(parts: seq<string>, sep: char)
    requires |parts| >= 1
    requires forall i :: 0 <= i < |parts| ==> sep !in parts[i]
    ensures Split(Join(parts, sep), sep) == parts
  {
    if |parts| == 1 {
      SplitSingle(parts[0], sep);
    } else {
      SplitJoin(parts[1..], sep);
      SplitPrepend(parts[0], sep, Join(parts[1..], sep));
    }
  }

  /** `t` occurs in `s` starting at position `i`. */
  predicate OccursAt(s: string, t: string, i: nat) {
    i + |t| <= |s| && s[i..i + |t|] == t
  }

  /** `String.contains(_:)` for a string argument, as a left-to-right search:
      `t` is a prefix here or occurs further on. */
  function Contains(s: string, t: string): (r: bool)
    ensures t <= s ==> r
    ensures r ==> |t| <= |s|
  {
    t <= s || (s != [] && Contains(s[1..], t))
  }

  /** The search finds `t` exactly when `t` occurs at some position of `s`. */
  lemma {:induction false} ContainsIff(s: string, t: string)
    ensures Contains(s, t) <==> exists i: nat :: OccursAt(s, t, i)
  {
    if t <= s {
      assert OccursAt(s, t, 0);
    } else if s != [] {
      ContainsIff(s[1..], t);
      if Contains(s[1..], t) {
        var i: nat :| OccursAt(s[1..], t, i);
        assert OccursAt(s, t, i + 1);
      }
      if exists i: nat :: OccursAt(s, t, i) {
        var i: nat :| OccursAt(s, t, i);
        assert i != 0;
        assert OccursAt(s[1..], t, i - 1);
      }
    }
  }

  /** A string lacking the first character of `t` does not contain `t`. */
  lemma {:induction false} LacksFirst(s: string, t: string)
    requires t != [] && t[0] !in s
    ensures !Contains(s, t)
  {
    if s != [] {
      LacksFirst(s[1..], t);
    }
  }

  /** A lower-case letter that a string holds in neither case is absent
      from its lower-cased form. */
  lemma LowerLacks(s: string, c: char)
    requires 'a' <= c <= 'z'
    requires c !in s && (c as int - 'a' as int + 'A' as int) as char !in s
    ensures c !in Lower(s)
  {
    forall i | 0 <= i < |s| ensures Lower(s)[i] != c {
      assert s[i] != c;
    }
  }

  /** A string contains each of its prefixes. */
  lemma ContainsPrefix(t: string, u: string)
    ensures Contains(t + u, t)
  {
  }

  /** What a string contains, every longer string ending in it contains too. */
  lemma {:induction false} ContainsInSuffix(t: string, u: string, x: string)
    requires Contains(u, x)
    ensures Contains(t + u, x)
  {
    if t == [] {
      assert t + u == u;
    } else {
      ContainsInSuffix(t[1..], u, x);
      assert (t + u)[1..] == t[1..] + u;
    }
  }

  /** A string contains every piece of its split. */
  lemma {:induction false} ContainsSplitPiece(s: string, sep: char, i: nat)
    requires i < |Split(s, sep)|
    ensures Contains(s, Split(s, sep)[i])
  {
    if s != [] {
      var rest := Split(s[1..], sep);
      if s[0] == sep {
        if i > 0 {
          ContainsSplitPiece(s[1..], sep, i - 1);
        }
      } else if i == 0 {
        assert rest[0] <= s[1..] by { ContainsFirstPiece(s[1..], sep); }
      } else {
        ContainsSplitPiece(s[1..], sep, i);
      }
    }
  }

  /** The first piece of a split is a prefix of the string. */
  lemma {:induction false} ContainsFirstPiece(s: string, sep: char)
    ensures Split(s, sep)[0] <= s
  {
    if s != [] && s[0] != sep {
      ContainsFirstPiece(s[1..], sep);
    }
  }

  /** `String.isPresent(in:)`: the receiver, lower-cased, contains the
      argument, which is searched for as it is. */
  function IsPresent(s: string, searchString: string): (r: bool)
    ensures r ==> |searchString| <= |s|
  {
    Contains(Lower(s), searchString)
  }

  /** The search string is present exactly when it occurs somewhere in the
      lower-cased receiver; so a search string holding an upper-case letter is
      never present. */
  lemma IsPresentIff(s: string, searchString: string)
    ensures IsPresent(s, searchString) <==> exists i: nat :: OccursAt(Lower(s), searchString, i)
    ensures IsPresent(s, searchString) ==> forall i :: 0 <= i < |searchString| ==> !IsUpper(searchString[i])
  {
    ContainsIff(Lower(s), searchString);
    if IsPresent(s, searchString) {
      var lo: nat :| OccursAt(Lower(s), searchString, lo);
      assert forall i :: 0 <= i < |searchString| ==> searchString[i] == Lower(s)[lo + i];
    }
  }
}
