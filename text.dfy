/** The Python string operations the scraper applies to cell texts: `split` on
    one character, `join`, substring tests, `strip`, and the `±` sign that
    separates a value from its uncertainty. */
module Text {

  /** The sign between a value and its uncertainty in the archive's cells. */
  const PM: char := '\U{B1}'

  /** Python's `s.split(sep)` for a one-character separator: the pieces between
      the separators, so always one more piece than there are separators. */
  function Split(s: string, sep: char): (parts: seq<string>)
    ensures |parts| == Occurrences(s, sep) + 1
    ensures forall k :: 0 <= k < |parts| ==> sep !in parts[k]
  {
    if s == [] then [""]
    else
      var rest := Split(s[1..], sep);
      if s[0] == sep then [""] + rest
      else
        assert sep !in [s[0]] + rest[0] by { assert forall i :: 0 < i <= |rest[0]| ==> ([s[0]] + rest[0])[i] == rest[0][i - 1]; }
        [[s[0]] + rest[0]] + rest[1..]
  }

  /** How many times `c` occurs in `s`. */
  function Occurrences(s: string, c: char): nat
  {
    if s == [] then 0 else (if s[0] == c then 1 else 0) + Occurrences(s[1..], c)
  }

  lemma {:induction false} OccurrencesZero(s: string, c: char)
    ensures Occurrences(s, c) == 0 <==> c !in s
  {
    if s != [] {
      OccurrencesZero(s[1..], c);
      assert s == [s[0]] + s[1..];
    }
  }

  /** Python's `sep.join(parts)`. */
  function Join(parts: seq<string>, sep: string): (r: string)
    ensures parts != [] ==> parts[0] <= r
  {
    if parts == [] then ""
    else if |parts| == 1 then parts[0]
    else parts[0] + sep + Join(parts[1..], sep)
  }

  /** `s` with every `from` replaced by `to`. */
  function Replace(s: string, from: char, to: char): (r: string)
    ensures |r| == |s|
    ensures forall i :: 0 <= i < |s| ==> r[i] == if s[i] == from then to else s[i]
  {
    if s == [] then [] else [if s[0] == from then to else s[0]] + Replace(s[1..], from, to)
  }

  /** Splitting on `sep` and joining with `glue` replaces every `sep` by `glue`;
      with `glue == sep` this is the round trip `sep.join(s.split(sep)) == s`. */
  lemma {:induction false} JoinSplit(s: string, sep: char, glue: char)
    ensures Join(Split(s, sep), [glue]) == Replace(s, sep, glue)
  {
    if s != [] {
      var rest := Split(s[1..], sep);
      JoinSplit(s[1..], sep, glue);
      if s[0] != sep {
        if |rest| > 1 {
          var tail := Join(rest[1..], [glue]);
          assert Join(Split(s, sep), [glue]) == ([s[0]] + rest[0]) + [glue] + tail;
          assert Join(rest, [glue]) == rest[0] + [glue] + tail;
          ConsConcat(s[0], rest[0], [glue] + tail);
        }
      }
    }
  }

  /** Putting a character in front of a concatenation is putting it in front of its first part. */
  lemma ConsConcat(c: char, a: string, b: string)
    ensures [c] + a + b == [c] + (a + b)
  {
  }

  /** A string splits into a single piece exactly when it holds no separator,
      and then that piece is the string itself. */
  lemma SplitWhole(s: string, sep: char)
    ensures |Split(s, sep)| == 1 <==> sep !in s
    ensures sep !in s ==> Split(s, sep) == [s]
  {
    OccurrencesZero(s, sep);
    JoinSplit(s, sep, sep);
    if sep !in s {
      assert Replace(s, sep, sep) == s;
    }
  }

  /** Python's `sub in s` for strings. */
  function Contains(s: string, sub: string): (b: bool)
    ensures sub == [] ==> b
    ensures b ==> |sub| <= |s|
    decreases |s|
  {
    if |sub| > |s| then false
    else if s[..|sub|] == sub then true
    else Contains(s[1..], sub)
  }

  /** `sub` sits in `s` starting at position `i`. */
  ghost predicate OccursAt(s: string, sub: string, i: int)
  {
    0 <= i <= |s| - |sub| && s[i..i + |sub|] == sub
  }

  /** `sub in s` holds exactly when `sub` occurs at some position of `s`. */
  lemma {:induction false} ContainsAt(s: string, sub: string)
    ensures Contains(s, sub) <==> exists i :: OccursAt(s, sub, i)
    decreases |s|
  {
    if |sub| <= |s| && s[..|sub|] != sub {
      ContainsAt(s[1..], sub);
      if exists i :: OccursAt(s, sub, i) {
        var i :| OccursAt(s, sub, i);
        assert i >= 1;
        assert OccursAt(s[1..], sub, i - 1);
      }
      if exists i :: OccursAt(s[1..], sub, i) {
        var i :| OccursAt(s[1..], sub, i);
        assert OccursAt(s, sub, i + 1);
      }
    } else if |sub| <= |s| {
      assert OccursAt(s, sub, 0);
    }
  }

  /** The characters Python's `str.strip()` removes (those with `isspace()`). */
  predicate IsSpace(c: char)
  {
    c == ' ' || '\t' <= c <= '\r' || '\U{1C}' <= c <= '\U{1F}' || c == '\U{85}' ||
    c == '\U{A0}' || c == '\U{1680}' || '\U{2000}' <= c <= '\U{200A}' || c == '\U{2028}' ||
    c == '\U{2029}' || c == '\U{202F}' || c == '\U{205F}' || c == '\U{3000}'
  }

  /** `s.lstrip()`: the suffix left after the leading white space. */
  function TrimStart(s: string): (t: string)
    ensures |t| <= |s| && t == s[|s| - |t|..]
    ensures forall i :: 0 <= i < |s| - |t| ==> IsSpace(s[i])
    ensures t != [] ==> !IsSpace(t[0])
  {
    if s != [] && IsSpace(s[0]) then TrimStart(s[1..]) else s
  }

  /** `s.rstrip()`: the prefix left before the trailing white space. */
  function TrimEnd(s: string): (t: string)
    ensures |t| <= |s| && t == s[..|t|]
    ensures forall i :: |t| <= i < |s| ==> IsSpace(s[i])
    ensures t != [] ==> !IsSpace(t[|t| - 1])
  {
    if s != [] && IsSpace(s[|s| - 1]) then TrimEnd(s[..|s| - 1]) else s
  }

  /** `t` is the slice of `s` at `i`, with only white space before and after it. */
  ghost predicate SpaceAround(s: string, t: string, i: int)
  {
    0 <= i <= |s| - |t| && t == s[i..i + |t|] &&
    (forall k :: 0 <= k < i ==> IsSpace(s[k])) &&
    (forall k :: i + |t| <= k < |s| ==> IsSpace(s[k]))
  }

  /** Python's `s.strip()`: a slice of `s` that neither starts nor ends with white
      space and has only white space around it; empty exactly when `s` is all
      white space. */
  function Strip(s: string): (t: string)
    ensures exists i :: SpaceAround(s, t, i)
    ensures t != [] ==> !IsSpace(t[0]) && !IsSpace(t[|t| - 1])
    ensures t == [] <==> forall k :: 0 <= k < |s| ==> IsSpace(s[k])
  {
    TrimAround(s);
    TrimEnds(s);
    TrimAllSpace(s);
    TrimEnd(TrimStart(s))
  }

  /** The first `n` characters after position `i` are the slice from `i` to `i + n`. */
  lemma SliceOfSuffix(s: string, i: nat, n: nat)
    requires i + n <= |s|
    ensures s[i..][..n] == s[i..i + n]
  {
  }

  /** Trimming both ends leaves no white space at either end. */
  lemma TrimEnds(s: string)
    ensures var t := TrimEnd(TrimStart(s)); t != [] ==> !IsSpace(t[0]) && !IsSpace(t[|t| - 1])
  {
    var u := TrimStart(s);
    var t := TrimEnd(u);
    assert t != [] ==> t[0] == u[0];
  }

  /** A suffix `u` of `s` after white space, cut before white space to `t`,
      leaves `t` as a slice of `s` with only white space around it. */
  lemma SliceAround(s: string, u: string, t: string)
    requires |u| <= |s| && u == s[|s| - |u|..]
    requires forall k :: 0 <= k < |s| - |u| ==> IsSpace(s[k])
    requires |t| <= |u| && t == u[..|t|]
    requires forall k :: |t| <= k < |u| ==> IsSpace(u[k])
    ensures SpaceAround(s, t, |s| - |u|)
  {
    var i := |s| - |u|;
    SliceOfSuffix(s, i, |t|);
    forall k | i + |t| <= k < |s| ensures IsSpace(s[k]) {
      assert s[k] == u[k - i];
    }
  }

  /** Trimming both ends leaves the slice of `s` after its leading white space,
      with only white space after it. */
  lemma TrimAround(s: string)
    ensures SpaceAround(s, TrimEnd(TrimStart(s)), |s| - |TrimStart(s)|)
  {
    SliceAround(s, TrimStart(s), TrimEnd(TrimStart(s)));
  }

  /** Trimming both ends leaves nothing exactly when `s` is all white space. */
  lemma TrimAllSpace(s: string)
    ensures TrimEnd(TrimStart(s)) == [] <==> forall k :: 0 <= k < |s| ==> IsSpace(s[k])
  {
    var u := TrimStart(s);
    var t := TrimEnd(u);
    TrimAround(s);
    if t != [] {
      assert t[0] == u[0] && u[0] == s[|s| - |u|];
    }
  }

  /** `s.split(sep)[-1]`. */
  function LastPart(s: string, sep: char): (t: string)
    ensures sep !in t
    ensures sep !in s ==> t == s
  {
    SplitWhole(s, sep);
    var parts := Split(s, sep);
    parts[|parts| - 1]
  }

  /** `s.split(sep)[-1]` is what follows the last `sep` of `s`, or all of `s`
      when `s` holds none. */
  lemma {:induction false} LastPartAfterLastSep(s: string, sep: char)
    ensures var t := LastPart(s, sep);
      |t| <= |s| && t == s[|s| - |t|..] && sep !in t &&
      (|t| < |s| ==> s[|s| - |t| - 1] == sep) &&
      (sep !in s ==> t == s)
  {
    SplitWhole(s, sep);
    if s != [] {
      var rest := Split(s[1..], sep);
      LastPartAfterLastSep(s[1..], sep);
      if s[0] != sep && |rest| == 1 {
        SplitWhole(s[1..], sep);
        assert s == [s[0]] + s[1..];
      }
    }
  }

  /** The text after the last separator: what follows `sep` in `p + [sep] + e`
      when `e` holds none. */
  lemma {:induction false} LastPartAfter(p: string, sep: char, e: string)
    requires sep !in e
    ensures LastPart(p + [sep] + e, sep) == e
  {
    var s := p + [sep] + e;
    if p == [] {
      assert s[1..] == e;
      SplitWhole(e, sep);
    } else {
      assert s[1..] == p[1..] + [sep] + e;
      LastPartAfter(p[1..], sep, e);
      SplitWhole(s[1..], sep);
      assert sep in s[1..] by { assert s[1..][|p| - 1] == sep; }
    }
  }
}
