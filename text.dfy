/**
 * The few Python `str` operations the catalog builder and the manager rely on,
 * with the behaviour CPython gives them: `startswith`, `in`, `strip()`,
 * `split(sep)`, `sep.join`, `lower()` and the ordering `<=` on strings.
 */
module Text {

  /** Python's `str.isspace()` character set; `strip()` and the regex class `\s` use it. */
  predicate IsSpace(c: char) {
    || ('\t' <= c <= '\r')
    || ('\U{1C}' <= c <= '\U{1F}')
    || c == ' ' || c == '\U{85}' || c == '\U{A0}' || c == '\U{1680}'
    || ('\U{2000}' <= c <= '\U{200A}')
    || c == '\U{2028}' || c == '\U{2029}' || c == '\U{202F}' || c == '\U{205F}' || c == '\U{3000}'
  }

  /** `s.startswith(prefix)` */
  predicate StartsWith(s: string, prefix: string) {
    |prefix| <= |s| && s[..|prefix|] == prefix
  }

  /** `t in s`: `t` occurs in `s` at some position. */
  predicate Occurs(t: string, s: string)
    decreases |s|
  {
    StartsWith(s, t) || (|s| > 0 && Occurs(t, s[1..]))
  }

  /** `t` occurs in `s` exactly when it occurs at some index `k`. */
  lemma {:induction false} OccursAt(t: string, s: string, k: nat)
    requires k + |t| <= |s| && s[k..k + |t|] == t
    ensures Occurs(t, s)
    decreases k
  {
    if k > 0 {
      assert s[1..][k - 1..k - 1 + |t|] == s[k..k + |t|];
      OccursAt(t, s[1..], k - 1);
    }
  }

  /** Conversely, an occurrence of `t` sits at some index `k`. */
  lemma {:induction false} OccursWitness(t: string, s: string) returns (k: nat)
    requires Occurs(t, s)
    ensures k + |t| <= |s| && s[k..k + |t|] == t
    decreases |s|
  {
    if StartsWith(s, t) {
      k := 0;
    } else {
      var j := OccursWitness(t, s[1..]);
      assert s[1..][j..j + |t|] == s[j + 1..j + 1 + |t|];
      k := j + 1;
    }
  }

  /** For a one-character needle, `[c] in s` is `c in s`. */
  lemma {:induction false} OccursChar(c: char, s: string)
    ensures Occurs([c], s) <==> c in s
    decreases |s|
  {
    if |s| > 0 {
      OccursChar(c, s[1..]);
      assert s == [s[0]] + s[1..];
    }
  }

  /** Whitespace dropped from the front. */
  function TrimStart(s: string): (r: string)
    ensures |r| <= |s| && r == s[|s| - |r|..]
    ensures r == [] || !IsSpace(r[0])
    ensures forall i :: 0 <= i < |s| - |r| ==> IsSpace(s[i])
  {
    if s != [] && IsSpace(s[0]) then TrimStart(s[1..]) else s
  }

  /** Whitespace dropped from the back. */
  function TrimEnd(s: string): (r: string)
    ensures |r| <= |s| && r == s[..|r|]
    ensures r == [] || !IsSpace(r[|r| - 1])
    ensures forall i :: |r| <= i < |s| ==> IsSpace(s[i])
  {
    if s != [] && IsSpace(s[|s| - 1]) then TrimEnd(s[..|s| - 1]) else s
  }

  /** `s.strip()`: the result neither starts nor ends with whitespace. */
  function Strip(s: string): (r: string)
    ensures |r| <= |s|
    ensures r == [] || (!IsSpace(r[0]) && !IsSpace(r[|r| - 1]))
  {
    TrimEnd(TrimStart(s))
  }

  /** A string without whitespace at either end is its own `strip()`. */
  lemma StripUnchanged(s: string)
    requires s == [] || (!IsSpace(s[0]) && !IsSpace(s[|s| - 1]))
    ensures Strip(s) == s
  {
  }

  /**
   * `s.split(sep)` for a non-empty separator: the pieces between the
   * occurrences of `sep` found scanning left to right, never overlapping.
   */
  function SplitOn(s: string, sep: string): (r: seq<string>)
    requires sep != []
    ensures |r| >= 1
    decreases |s|
  {
    if StartsWith(s, sep) then [""] + SplitOn(s[|sep|..], sep)
    else if s == [] then [""]
    else
      var rest := SplitOn(s[1..], sep);
      [[s[0]] + rest[0]] + rest[1..]
  }

  /** `sep.join(parts)` */
  function Join(parts: seq<string>, sep: string): string
  {
    if |parts| == 0 then ""
    else if |parts| == 1 then parts[0]
    else parts[0] + sep + Join(parts[1..], sep)
  }

  /** A sequence is its first element followed by the rest. */
  lemma HeadRest<T>(s: seq<T>)
    requires s != []
    ensures s == [s[0]] + s[1..]
  {
  }

  /** A sequence that starts with `p` is `p` followed by the rest. */
  lemma PrefixRest<T>(s: seq<T>, p: seq<T>)
    requires |p| <= |s| && s[..|p|] == p
    ensures s == p + s[|p|..] && [] + p == p
  {
    assert s == s[..|p|] + s[|p|..];
  }

  /** Joining a list whose head is `x` puts `x` and the separator in front. */
  lemma JoinCons(x: string, rest: seq<string>, sep: string)
    requires |rest| >= 1
    ensures Join([x] + rest, sep) == x + sep + Join(rest, sep)
  {
    assert ([x] + rest)[1..] == rest;
  }

  /** Growing the first part by one character grows the joined string by it. */
  lemma JoinPrepend(c: char, parts: seq<string>, sep: string)
    requires |parts| >= 1
    ensures Join([[c] + parts[0]] + parts[1..], sep) == [c] + Join(parts, sep)
  {
    var grown := [[c] + parts[0]] + parts[1..];
    if |parts| > 1 {
      assert grown[1..] == parts[1..];
    }
  }

  /** Joining the pieces of a split with the same separator gives the string back. */
  lemma {:induction false} SplitJoin(s: string, sep: string)
    requires sep != []
    ensures Join(SplitOn(s, sep), sep) == s
    decreases |s|
  {
    if StartsWith(s, sep) {
      var rest := SplitOn(s[|sep|..], sep);
      SplitJoin(s[|sep|..], sep);
      assert SplitOn(s, sep) == [""] + rest;
      JoinCons("", rest, sep);
      PrefixRest(s, sep);
    } else if s != [] {
      var rest := SplitOn(s[1..], sep);
      SplitJoin(s[1..], sep);
      assert SplitOn(s, sep) == [[s[0]] + rest[0]] + rest[1..];
      JoinPrepend(s[0], rest, sep);
      HeadRest(s);
    }
  }

  /** The first piece of a split is a prefix of the string. */
  lemma SplitFirstIsPrefix(s: string, sep: string)
    requires sep != []
    ensures StartsWith(s, SplitOn(s, sep)[0])
  {
    SplitJoin(s, sep);
    var parts := SplitOn(s, sep);
    if |parts| > 1 {
      assert s == parts[0] + (sep + Join(parts[1..], sep));
    }
  }

  /** A prefix of a prefix is a prefix. */
  lemma StartsWithTransitive(s: string, x: string, p: string)
    ensures StartsWith(s, x) && StartsWith(x, p) ==> StartsWith(s, p)
  {
    if StartsWith(s, x) && StartsWith(x, p) {
      assert s[..|p|] == s[..|x|][..|p|];
    }
  }

  /** No piece of a split contains the separator. */
  lemma {:induction false} SplitPiecesFree(s: string, sep: string)
    requires sep != []
    ensures forall i :: 0 <= i < |SplitOn(s, sep)| ==> !Occurs(sep, SplitOn(s, sep)[i])
    decreases |s|
  {
    var parts := SplitOn(s, sep);
    if StartsWith(s, sep) {
      SplitPiecesFree(s[|sep|..], sep);
      assert parts[1..] == SplitOn(s[|sep|..], sep);
      assert forall i :: 1 <= i < |parts| ==> parts[i] == parts[1..][i - 1];
    } else if s != [] {
      var rest := SplitOn(s[1..], sep);
      SplitPiecesFree(s[1..], sep);
      SplitFirstIsPrefix(s[1..], sep);
      var first := [s[0]] + rest[0];
      assert first[1..] == rest[0];
      assert StartsWith(s, first) by {
        assert s == [s[0]] + s[1..];
        assert s[..|first|] == [s[0]] + s[1..][..|rest[0]|];
      }
      StartsWithTransitive(s, first, sep);
      assert !Occurs(sep, first);
      assert forall i :: 1 <= i < |parts| ==> parts[i] == rest[i];
    }
  }

  /** A string in which `sep` does not occur splits into itself alone. */
  lemma {:induction false} SplitAbsent(s: string, sep: string)
    requires sep != [] && !Occurs(sep, s)
    ensures SplitOn(s, sep) == [s]
    decreases |s|
  {
    if s != [] {
      SplitAbsent(s[1..], sep);
      assert s == [s[0]] + s[1..];
    }
  }

  /** The separator glued between two strings is found there. */
  lemma {:induction false} OccursBetween(a: string, sep: string, b: string)
    ensures Occurs(sep, a + sep + b)
  {
    var s := a + sep + b;
    assert s[|a|..|a| + |sep|] == sep;
    OccursAt(sep, s, |a|);
  }

  /** `s.split(sep)` has a second piece exactly when `sep in s`. */
  lemma SplitHasSecondIff(s: string, sep: string)
    requires sep != []
    ensures |SplitOn(s, sep)| >= 2 <==> Occurs(sep, s)
  {
    var parts := SplitOn(s, sep);
    SplitJoin(s, sep);
    SplitPiecesFree(s, sep);
    if |parts| >= 2 {
      OccursBetween(parts[0], sep, Join(parts[1..], sep));
      assert s == parts[0] + sep + Join(parts[1..], sep);
    }
  }

  /**
   * When `sep` starts nowhere before index `k`, the first `k` characters
   * belong to the first piece and the split continues from `k`.
   */
  lemma {:induction false} SplitSkip(s: string, sep: string, k: nat)
    requires sep != [] && k <= |s|
    requires forall i :: 0 <= i < k ==> !StartsWith(s[i..], sep)
    ensures SplitOn(s, sep) == [s[..k] + SplitOn(s[k..], sep)[0]] + SplitOn(s[k..], sep)[1..]
    decreases k
  {
    if k > 0 {
      assert !StartsWith(s[0..], sep);
      assert s[0..] == s;
      forall i | 0 <= i < k - 1
        ensures !StartsWith(s[1..][i..], sep)
      {
        assert s[1..][i..] == s[i + 1..];
      }
      SplitSkip(s[1..], sep, k - 1);
      assert s[1..][k - 1..] == s[k..];
      SplitSkipStep(s, sep, k, SplitOn(s[k..], sep));
    } else {
      var whole := SplitOn(s, sep);
      assert s[k..] == s && s[..k] == "";
      assert SplitOn(s[k..], sep) == whole;
      assert s[..k] + whole[0] == whole[0];
      assert whole == [whole[0]] + whole[1..];
    }
  }

  /** One step of `SplitSkip`: a character that does not start `sep` joins the first piece. */
  lemma SplitSkipStep(s: string, sep: string, k: nat, tail: seq<string>)
    requires sep != [] && 0 < k <= |s| && !StartsWith(s, sep) && |tail| >= 1
    requires SplitOn(s[1..], sep) == [s[1..][..k - 1] + tail[0]] + tail[1..]
    ensures SplitOn(s, sep) == [s[..k] + tail[0]] + tail[1..]
  {
    var rest := SplitOn(s[1..], sep);
    var head := s[1..][..k - 1];
    assert SplitOn(s, sep) == [[s[0]] + rest[0]] + rest[1..];
    assert rest[0] == head + tail[0];
    assert rest[1..] == tail[1..];
    assert [s[0]] + head == s[..k];
    assert [s[0]] + (head + tail[0]) == s[..k] + tail[0];
  }

  /** Splitting on a single character undoes joining with it when no part holds that character. */
  lemma {:induction false} JoinSplitChar(parts: seq<string>, c: char)
    requires |parts| >= 1
    requires forall i :: 0 <= i < |parts| ==> c !in parts[i]
    ensures SplitOn(Join(parts, [c]), [c]) == parts
    decreases |parts|
  {
    if |parts| == 1 {
      OccursChar(c, parts[0]);
      SplitAbsent(parts[0], [c]);
    } else {
      var p := parts[0];
      var tail := Join(parts[1..], [c]);
      var s := Join(parts, [c]);
      assert s == p + [c] + tail;
      forall i | 0 <= i < |p|
        ensures !StartsWith(s[i..], [c])
      {
        assert s[i..][..1] == [p[i]];
      }
      SplitSkip(s, [c], |p|);
      assert s[|p|..] == [c] + tail;
      assert StartsWith(s[|p|..], [c]);
      assert s[|p|..][1..] == tail;
      JoinSplitChar(parts[1..], c);
      var after := SplitOn(s[|p|..], [c]);
      assert after == [""] + SplitOn(tail, [c]);
      assert after == [""] + parts[1..];
      assert after[0] == "" && after[1..] == parts[1..];
      assert s[..|p|] == p;
      assert s[..|p|] + after[0] == p;
      assert parts == [p] + parts[1..];
    }
  }

  /** ASCII `str.lower()` of one character. */
  function LowerChar(c: char): char {
    if 'A' <= c <= 'Z' then (c as int - 'A' as int + 'a' as int) as char else c
  }

  /** `s.lower()`, character by character. */
  function Lower(s: string): (r: string)
    ensures |r| == |s|
  {
    seq(|s|, i requires 0 <= i < |s| => LowerChar(s[i]))
  }

  /** Python's `a <= b` on strings: by code point, a proper prefix first. */
  predicate LexLe(a: string, b: string)
    decreases |a|
  {
    a == [] || (b != [] && (a[0] < b[0] || (a[0] == b[0] && LexLe(a[1..], b[1..]))))
  }

  lemma {:induction false} LexLeTotal(a: string, b: string)
    ensures LexLe(a, b) || LexLe(b, a)
    decreases |a|
  {
    if a != [] && b != [] && a[0] == b[0] {
      LexLeTotal(a[1..], b[1..]);
    }
  }

  lemma {:induction false} LexLeTransitive(a: string, b: string, c: string)
    requires LexLe(a, b) && LexLe(b, c)
    ensures LexLe(a, c)
    decreases |a|
  {
    if a != [] && a[0] == b[0] && b[0] == c[0] {
      LexLeTransitive(a[1..], b[1..], c[1..]);
    }
  }

  lemma {:induction false} LexLeAntisymmetric(a: string, b: string)
    requires LexLe(a, b) && LexLe(b, a)
    ensures a == b
    decreases |a|
  {
    if a != [] {
      LexLeAntisymmetric(a[1..], b[1..]);
      assert a == [a[0]] + a[1..] && b == [b[0]] + b[1..];
    }
  }
}
