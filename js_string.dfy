/**
 * The few JavaScript string built-ins the episode-id normalisation relies on:
 * `startsWith`, `endsWith`, `split` on a one-character separator, taking the
 * last element of the split, and `slice(start)`.
 */
module JsString {

  /** `s.startsWith(prefix)`: a literal prefix test. */
  predicate StartsWith(s: string, prefix: string) {
    |prefix| <= |s| && s[..|prefix|] == prefix
  }

  /** `s.endsWith(suffix)`: a literal suffix test; every string ends with "". */
  predicate EndsWith(s: string, suffix: string) {
    |suffix| <= |s| && s[|s| - |suffix|..] == suffix
  }

  /** `s.slice(start)` for a non-negative start: empty once start passes the end. */
  function SliceFrom(s: string, start: nat): (r: string)
    ensures start <= |s| ==> |r| == |s| - start && s == s[..start] + r
    ensures start >= |s| ==> r == ""
  {
    if start >= |s| then "" else s[start..]
  }

  /** Number of occurrences of `c` in `s`. */
  function Count(s: string, c: char): (n: nat)
    ensures n == 0 <==> c !in s
    ensures n <= |s|
  {
    if s == [] then 0
    else (if s[0] == c then 1 else 0) + Count(s[1..], c)
  }

  /**
   * `s.split(sep)` for a one-character separator: the pieces of `s` between
   * occurrences of `sep`, including the empty pieces before a leading, after
   * a trailing and between adjacent separators; "" splits into [""].
   */
  function Split(s: string, sep: char): (parts: seq<string>)
    ensures |parts| == Count(s, sep) + 1
    ensures forall i :: 0 <= i < |parts| ==> sep !in parts[i]
  {
    if s == [] then [""]
    else if s[0] == sep then [""] + Split(s[1..], sep)
    else
      var rest := Split(s[1..], sep);
      [[s[0]] + rest[0]] + rest[1..]
  }

  /** `parts.join(sep)`: the inverse of `Split`. */
  function Join(parts: seq<string>, sep: char): string
    requires |parts| >= 1
  {
    if |parts| == 1 then parts[0] else parts[0] + [sep] + Join(parts[1..], sep)
  }

  /** Splitting loses nothing: joining the pieces back gives the original string. */
  lemma {:induction false} JoinSplit(s: string, sep: char)
    ensures Join(Split(s, sep), sep) == s
  {
    if s == [] {
    } else if s[0] == sep {
      var rest := Split(s[1..], sep);
      JoinSplit(s[1..], sep);
      assert ([""] + rest)[1..] == rest;
      assert s == [sep] + s[1..];
    } else {
      var rest := Split(s[1..], sep);
      var parts := [[s[0]] + rest[0]] + rest[1..];
      JoinSplit(s[1..], sep);
      assert parts[1..] == rest[1..];
      assert s == [s[0]] + s[1..];
      if |rest| == 1 {
        assert Join(parts, sep) == [s[0]] + rest[0];
      } else {
        assert Join(rest, sep) == rest[0] + [sep] + Join(rest[1..], sep);
        assert Join(parts, sep) == ([s[0]] + rest[0]) + [sep] + Join(rest[1..], sep);
      }
    }
  }

  /**
   * `path[path.length - 1]` where `path = s.split(sep)`: the text after the
   * last separator.
   */
  function LastSegment(s: string, sep: char): (seg: string)
    ensures IsTailAfterLastSep(s, sep, seg)
  {
    LastPieceIsTail(s, sep);
    LastPiece(s, sep)
  }

  /** The last element of the split. */
  function LastPiece(s: string, sep: char): string {
    var parts := Split(s, sep);
    parts[|parts| - 1]
  }

  /**
   * The text after the last separator: a suffix of `s` with no separator in
   * it, which is either all of `s` or is preceded by a separator.
   */
  predicate IsTailAfterLastSep(s: string, sep: char, t: string) {
    && |t| <= |s|
    && s[|s| - |t|..] == t
    && sep !in t
    && (|t| == |s| || s[|s| - |t| - 1] == sep)
  }

  /** The last piece of the split is the text after the last separator. */
  lemma {:induction false} LastPieceIsTail(s: string, sep: char)
    ensures IsTailAfterLastSep(s, sep, LastPiece(s, sep))
  {
    if s == [] {
    } else {
      var rest := Split(s[1..], sep);
      var seg' := rest[|rest| - 1];
      LastPieceIsTail(s[1..], sep);
      assert s[1..][|s[1..]| - |seg'|..] == s[|s| - |seg'|..];
      if s[0] == sep {
        assert Split(s, sep) == [""] + rest;
      } else if |rest| == 1 {
        assert sep !in s[1..];
        assert LastPiece(s, sep) == [s[0]] + seg';
        assert s == [s[0]] + s[1..];
      } else {
        assert LastPiece(s, sep) == seg';
        assert sep in s[1..];
        assert |seg'| < |s[1..]|;
        assert s[1..][|s[1..]| - |seg'| - 1] == s[|s| - |seg'| - 1];
      }
    }
  }

  /** There is only one text after the last separator. */
  lemma TailAfterLastSepUnique(s: string, sep: char, t: string, u: string)
    requires IsTailAfterLastSep(s, sep, t) && IsTailAfterLastSep(s, sep, u)
    ensures t == u
  {
  }

  /**
   * `LastSegment` is characterised by `IsTailAfterLastSep`: it is the one and
   * only string with that property.
   */
  lemma LastSegmentCharacterised(s: string, sep: char, t: string)
    ensures IsTailAfterLastSep(s, sep, t) <==> t == LastSegment(s, sep)
  {
  }

  /** The last segment is empty exactly when `s` is empty or ends with the separator. */
  lemma LastSegmentEmpty(s: string, sep: char)
    ensures LastSegment(s, sep) == "" <==> (s == "" || s[|s| - 1] == sep)
  {
  }
}
