/** The string handling that turns the value of the `acciones` configuration key
    into the list of action identifiers: Java's `String.split(";")` followed by
    `String.trim()` on every segment, skipping the segments that trim to empty. */
module Config {

  /** The separator between identifiers in the `acciones` value. */
  const Separator := ';'

  /** `String.trim()` removes every character whose code is at most U+0020. */
  predicate IsWhitespace(c: char) {
    c <= ' '
  }

  // ---------------------------------------------------------------- splitting

  /** Java's `String.split` on a one-character separator, empty segments
      included: a separator closes the current segment and opens the next. */
  function Split(s: string, sep: char): (r: seq<string>)
    ensures |r| >= 1
  {
    if s == [] then [[]]
    else
      var rest := Split(s[1..], sep);
      if s[0] == sep then [[]] + rest
      else [[s[0]] + rest[0]] + rest[1..]
  }

  /** The inverse of `Split`: the parts glued back together with `sep`. */
  function Join(parts: seq<string>, sep: char): string
    requires |parts| >= 1
  {
    if |parts| == 1 then parts[0]
    else parts[0] + [sep] + Join(parts[1..], sep)
  }

  /** No segment contains the separator. */
  lemma {:induction false} SplitSegmentsFree(s: string, sep: char)
    ensures forall k :: 0 <= k < |Split(s, sep)| ==> sep !in Split(s, sep)[k]
  {
    if s != [] {
      SplitSegmentsFree(s[1..], sep);
      var rest := Split(s[1..], sep);
      var r := Split(s, sep);
      forall k | 0 <= k < |r| ensures sep !in r[k] {
        if s[0] == sep {
          if k > 0 { assert r[k] == rest[k - 1]; }
        } else if k == 0 {
          assert r[0] == [s[0]] + rest[0];
          assert sep !in rest[0];
        } else {
          assert r[k] == rest[k];
        }
      }
    }
  }

  /** Concatenation is associative. */
  lemma ConcatAssoc<T>(x: seq<T>, y: seq<T>, z: seq<T>)
    ensures x + (y + z) == (x + y) + z
  {
  }

  /** Splitting `c` followed by `t`: a separator opens a new segment, any other
      character joins the first segment of `t`. */
  lemma SplitCons(c: char, t: string, sep: char)
    ensures Split([c] + t, sep) ==
      if c == sep then [[]] + Split(t, sep)
      else [[c] + Split(t, sep)[0]] + Split(t, sep)[1..]
  {
    assert ([c] + t)[1..] == t;
  }

  /** One more character in front keeps the distribution of Split over a
      separator. */
  lemma SplitConcatCons(c: char, t: string, b: string, sep: char)
    requires Split(t + [sep] + b, sep) == Split(t, sep) + Split(b, sep)
    ensures Split([c] + t + [sep] + b, sep) == Split([c] + t, sep) + Split(b, sep)
  {
    assert [c] + t + [sep] + b == [c] + (t + [sep] + b);
    SplitCons(c, t + [sep] + b, sep);
    SplitCons(c, t, sep);
    if c == sep {
      ConcatAssoc([[]], Split(t, sep), Split(b, sep));
    } else {
      PrependToFirst([c], Split(t, sep), Split(b, sep));
    }
  }

  /** Gluing `x` onto the first part of `p + q` is gluing it onto the first
      part of `p`. */
  lemma PrependToFirst(x: string, p: seq<string>, q: seq<string>)
    requires |p| >= 1
    ensures [x + (p + q)[0]] + (p + q)[1..] == ([x + p[0]] + p[1..]) + q
  {
    assert (p + q)[0] == p[0];
    assert (p + q)[1..] == p[1..] + q;
  }

  /** Splitting distributes over a separator: the segments of `a;b` are those of
      `a` followed by those of `b`, so segment order is source order. */
  lemma {:induction false} SplitConcat(a: string, b: string, sep: char)
    ensures Split(a + [sep] + b, sep) == Split(a, sep) + Split(b, sep)
  {
    if a == [] {
      assert a + [sep] + b == [sep] + b;
      SplitCons(sep, b, sep);
    } else {
      SplitConcat(a[1..], b, sep);
      SplitConcatCons(a[0], a[1..], b, sep);
      assert [a[0]] + a[1..] == a;
    }
  }

  /** Splitting loses nothing: the segments glued with the separator give back the input. */
  lemma {:induction false} JoinSplit(s: string, sep: char)
    ensures Join(Split(s, sep), sep) == s
  {
    if s != [] {
      JoinSplit(s[1..], sep);
      var rest := Split(s[1..], sep);
      if s[0] == sep {
        assert Split(s, sep)[1..] == rest;
        assert s == [sep] + s[1..];
      } else {
        var r := Split(s, sep);
        if |rest| == 1 {
          assert s == [s[0]] + s[1..];
        } else {
          assert r[1..] == rest[1..];
          assert Join(rest, sep) == rest[0] + [sep] + Join(rest[1..], sep);
          assert s == [s[0]] + s[1..];
        }
      }
    }
  }

  /** A string without the separator is a single segment. */
  lemma {:induction false} SplitPlain(s: string, sep: char)
    requires sep !in s
    ensures Split(s, sep) == [s]
  {
    if s != [] {
      assert sep !in s[1..] by {
        forall k | 0 <= k < |s[1..]| ensures s[1..][k] != sep { assert s[1..][k] == s[k + 1]; }
      }
      SplitPlain(s[1..], sep);
      assert s == [s[0]] + s[1..];
    }
  }

  /** Splitting finds exactly the parts: parts free of the separator are recovered
      from their join. Together with JoinSplit, Split and Join are inverse bijections. */
  lemma {:induction false} SplitJoin(parts: seq<string>, sep: char)
    requires |parts| >= 1
    requires forall k :: 0 <= k < |parts| ==> sep !in parts[k]
    ensures Split(Join(parts, sep), sep) == parts
  {
    SplitPlain(parts[0], sep);
    if |parts| > 1 {
      var tail := parts[1..];
      assert forall k :: 0 <= k < |tail| ==> sep !in tail[k] by {
        forall k | 0 <= k < |tail| ensures sep !in tail[k] {
          assert tail[k] == parts[k + 1];
        }
      }
      SplitJoin(tail, sep);
      SplitConcat(parts[0], Join(tail, sep), sep);
      assert parts == [parts[0]] + tail;
    }
  }

  // ----------------------------------------------------------------- trimming

  /** `s` without its leading whitespace. */
  function TrimStart(s: string): string {
    if s != [] && IsWhitespace(s[0]) then TrimStart(s[1..]) else s
  }

  /** `s` without its trailing whitespace. */
  function TrimEnd(s: string): string {
    if s != [] && IsWhitespace(s[|s| - 1]) then TrimEnd(s[..|s| - 1]) else s
  }

  /** TrimStart keeps the longest suffix that does not start with whitespace:
      what it drops is all whitespace, what it keeps starts with a non-whitespace
      character or is empty. */
  lemma {:induction false} TrimStartSpec(s: string)
    ensures |TrimStart(s)| <= |s| && TrimStart(s) == s[|s| - |TrimStart(s)|..]
    ensures forall k :: 0 <= k < |s| - |TrimStart(s)| ==> IsWhitespace(s[k])
    ensures TrimStart(s) == [] || !IsWhitespace(TrimStart(s)[0])
  {
    if s != [] && IsWhitespace(s[0]) {
      var t := TrimStart(s[1..]);
      TrimStartSpec(s[1..]);
      assert TrimStart(s) == t;
      assert s[1..][|s| - 1 - |t|..] == s[|s| - |t|..];
      forall k | 1 <= k < |s| - |t| ensures IsWhitespace(s[k]) {
        assert s[k] == s[1..][k - 1];
      }
    }
  }

  /** TrimEnd keeps the longest prefix that does not end with whitespace. */
  lemma {:induction false} TrimEndSpec(s: string)
    ensures |TrimEnd(s)| <= |s| && TrimEnd(s) == s[..|TrimEnd(s)|]
    ensures forall k :: |TrimEnd(s)| <= k < |s| ==> IsWhitespace(s[k])
    ensures TrimEnd(s) == [] || !IsWhitespace(TrimEnd(s)[|TrimEnd(s)| - 1])
  {
    if s != [] && IsWhitespace(s[|s| - 1]) {
      TrimEndSpec(s[..|s| - 1]);
    }
  }

  /** Java's `String.trim()`. */
  function Trim(s: string): string {
    TrimEnd(TrimStart(s))
  }

  /** Trim keeps a contiguous middle part of its input, removes only whitespace,
      and leaves no whitespace at either end. */
  lemma TrimIsSlice(s: string)
    ensures |TrimStart(s)| <= |s|
    ensures var i := |s| - |TrimStart(s)|;
      i + |Trim(s)| <= |s| && Trim(s) == s[i..i + |Trim(s)|]
    ensures forall k :: 0 <= k < |s| - |TrimStart(s)| ==> IsWhitespace(s[k])
    ensures forall k :: |s| - |TrimStart(s)| + |Trim(s)| <= k < |s| ==> IsWhitespace(s[k])
    ensures Trim(s) == [] || (!IsWhitespace(Trim(s)[0]) && !IsWhitespace(Trim(s)[|Trim(s)| - 1]))
  {
    var t := TrimStart(s);
    var i := |s| - |t|;
    var r := TrimEnd(t);
    TrimStartSpec(s);
    TrimEndSpec(t);
    assert t == s[i..];
    forall k | i + |r| <= k < |s| ensures IsWhitespace(s[k]) {
      assert s[k] == t[k - i];
    }
    if r != [] {
      assert r[0] == t[0];
    }
  }

  /** A string is blank when nothing is left after trimming. */
  predicate IsBlank(s: string) {
    Trim(s) == []
  }

  /** Blank means made only of whitespace. */
  lemma BlankIffAllWhitespace(s: string)
    ensures IsBlank(s) <==> forall k :: 0 <= k < |s| ==> IsWhitespace(s[k])
  {
    var t := TrimStart(s);
    TrimStartSpec(s);
    TrimEndSpec(t);
    if t != [] {
      assert !IsWhitespace(t[0]);
      assert t[0] == s[|s| - |t|];
    }
  }

  /** Trimming twice is trimming once. */
  lemma TrimIdempotent(s: string)
    ensures Trim(Trim(s)) == Trim(s)
  {
    var t := Trim(s);
    TrimIsSlice(s);
    if t != [] {
      assert TrimStart(t) == t;
      assert TrimEnd(t) == t;
    }
  }

  /** Trimming cannot introduce the separator, which is not whitespace. */
  lemma TrimKeepsSeparatorOut(s: string)
    requires Separator !in s
    ensures Separator !in Trim(s)
  {
    TrimIsSlice(s);
  }

  // -------------------------------------------------------------- identifiers

  /** The trimmed segments, empty ones dropped, in their original order
      (the `continue` on an empty class name). */
  function Identifiers(segments: seq<string>): (ids: seq<string>)
    ensures |ids| <= |segments|
    ensures forall k :: 0 <= k < |ids| ==> ids[k] != []
  {
    if segments == [] then []
    else
      var t := Trim(segments[0]);
      (if t == [] then [] else [t]) + Identifiers(segments[1..])
  }

  /** The identifiers named by an `acciones` value. */
  function ParseIdentifiers(value: string): seq<string> {
    Identifiers(Split(value, Separator))
  }

  /** Every character of `t` is whitespace. */
  predicate AllWhitespace(t: string) {
    forall k :: 0 <= k < |t| ==> IsWhitespace(t[k])
  }

  /** A value made only of separators and whitespace splits into segments that
      are all whitespace. */
  lemma {:induction false} SplitOfBlanks(s: string, sep: char)
    requires forall k :: 0 <= k < |s| ==> IsWhitespace(s[k]) || s[k] == sep
    ensures forall j :: 0 <= j < |Split(s, sep)| ==> AllWhitespace(Split(s, sep)[j])
  {
    if s != [] {
      var t := s[1..];
      forall k | 0 <= k < |t| ensures IsWhitespace(t[k]) || t[k] == sep {
        assert t[k] == s[k + 1];
      }
      SplitOfBlanks(t, sep);
      var rest := Split(t, sep);
      var r := Split(s, sep);
      forall j | 0 <= j < |r| ensures AllWhitespace(r[j]) {
        if s[0] == sep {
          if j > 0 { assert r[j] == rest[j - 1]; }
        } else if j == 0 {
          assert AllWhitespace(rest[0]);
          assert r[0] == [s[0]] + rest[0];
          forall k | 0 <= k < |r[0]| ensures IsWhitespace(r[0][k]) {
            if k > 0 { assert r[0][k] == rest[0][k - 1]; }
          }
        } else {
          assert r[j] == rest[j];
        }
      }
    }
  }

  /** Segments that are all whitespace name no identifier. */
  lemma {:induction false} IdentifiersOfBlanks(segments: seq<string>)
    requires forall j :: 0 <= j < |segments| ==> AllWhitespace(segments[j])
    ensures Identifiers(segments) == []
  {
    if segments != [] {
      BlankIffAllWhitespace(segments[0]);
      IdentifiersOfBlanks(segments[1..]);
    }
  }

  /** Identifiers of consecutive groups of segments are consecutive: order is kept. */
  lemma {:induction false} IdentifiersConcat(a: seq<string>, b: seq<string>)
    ensures Identifiers(a + b) == Identifiers(a) + Identifiers(b)
  {
    if a != [] {
      assert (a + b)[1..] == a[1..] + b;
      IdentifiersConcat(a[1..], b);
    } else {
      assert a + b == b;
    }
  }

  /** An identifier is exactly a non-empty trimmed segment: every identifier comes
      from some segment, and every segment that is non-empty once trimmed yields one. */
  lemma {:induction false} IdentifiersAreTrimmedSegments(segments: seq<string>, id: string)
    ensures id in Identifiers(segments) <==>
            id != [] && exists k :: 0 <= k < |segments| && Trim(segments[k]) == id
  {
    if segments != [] {
      IdentifiersAreTrimmedSegments(segments[1..], id);
      if id != [] && exists k :: 0 <= k < |segments| && Trim(segments[k]) == id {
        var k :| 0 <= k < |segments| && Trim(segments[k]) == id;
        if k > 0 {
          assert Trim(segments[1..][k - 1]) == id;
        }
      }
      if id in Identifiers(segments[1..]) {
        var k :| 0 <= k < |segments[1..]| && Trim(segments[1..][k]) == id;
        assert Trim(segments[k + 1]) == id;
      }
    }
  }

  /** No identifier contains the separator or is empty, and every identifier is
      already trimmed. */
  lemma ParsedIdentifiersAreClean(value: string)
    ensures forall k :: 0 <= k < |ParseIdentifiers(value)| ==>
      var id := ParseIdentifiers(value)[k];
      id != [] && Trim(id) == id && Separator !in id
  {
    var segs := Split(value, Separator);
    SplitSegmentsFree(value, Separator);
    forall k | 0 <= k < |ParseIdentifiers(value)|
      ensures Trim(ParseIdentifiers(value)[k]) == ParseIdentifiers(value)[k]
      ensures Separator !in ParseIdentifiers(value)[k]
    {
      var id := ParseIdentifiers(value)[k];
      IdentifiersAreTrimmedSegments(segs, id);
      var j :| 0 <= j < |segs| && Trim(segs[j]) == id;
      TrimKeepsSeparatorOut(segs[j]);
      TrimIdempotent(segs[j]);
    }
  }

  /** The identifiers of `a;b` are those of `a` followed by those of `b`. */
  lemma ParseConcat(a: string, b: string)
    ensures ParseIdentifiers(a + [Separator] + b) == ParseIdentifiers(a) + ParseIdentifiers(b)
  {
    SplitConcat(a, b, Separator);
    IdentifiersConcat(Split(a, Separator), Split(b, Separator));
  }
}
