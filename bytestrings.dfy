/**
 * Go strings as byte sequences, the two routines of Go's `strings` package
 * that the client calls (`strings.Replace` with no limit and
 * `strings.ToUpper`), and `Split`, `Join` and `IndexOf`, which build and
 * read back the `&`-joined query strings.
 */
module ByteStrings {
  import opened Wrappers

  /** A Go byte, held as the character with the same code so that ASCII text
      can be written as a string literal. */
  type Byte = c: char | c as int < 256

  /** A Go string: a sequence of bytes. */
  type Bytes = seq<Byte>

  /** `pat` occurs in `s` starting at index `i`. */
  predicate OccursAt(s: Bytes, pat: Bytes, i: int)
  {
    0 <= i && i + |pat| <= |s| && s[i..i + |pat|] == pat
  }

  /** `pat` occurs somewhere in `s` (strings.Contains). */
  ghost predicate Contains(s: Bytes, pat: Bytes)
  {
    exists i :: OccursAt(s, pat, i)
  }

  /** strings.IndexByte: the first index of `b` in `s`, if any. */
  function IndexOf(s: Bytes, b: Byte): (r: Option<nat>)
    ensures r.None? <==> b !in s
    ensures r.Some? ==> r.value < |s| && s[r.value] == b && b !in s[..r.value]
  {
    if s == [] then None
    else if s[0] == b then Some(0)
    else
      match IndexOf(s[1..], b)
      case None => None
      case Some(i) => assert s[..i + 1] == [s[0]] + s[1..][..i]; Some(i + 1)
  }

  /** strings.Replace(s, pat, rep, -1) for a non-empty `pat`: every
      occurrence of `pat`, scanning left to right without overlap, is
      replaced by `rep`. */
  function ReplaceAll(s: Bytes, pat: Bytes, rep: Bytes): (r: Bytes)
    requires |pat| > 0
    ensures pat[0] !in s ==> r == s
    ensures |pat| == 1 && pat[0] !in rep ==> pat[0] !in r
    decreases |s|
  {
    if |s| < |pat| then s
    else if s[..|pat|] == pat then rep + ReplaceAll(s[|pat|..], pat, rep)
    else [s[0]] + ReplaceAll(s[1..], pat, rep)
  }

  /** A prefix free of `pat[0]` is copied unchanged, and replacement goes on
      after it. */
  lemma {:induction false} ReplaceAfterFreePrefix(u: Bytes, t: Bytes, pat: Bytes, rep: Bytes)
    requires |pat| > 0 && pat[0] !in u
    ensures ReplaceAll(u + t, pat, rep) == u + ReplaceAll(t, pat, rep)
    decreases |u|
  {
    if u != [] {
      var s := u + t;
      if |s| < |pat| {
        assert ReplaceAll(s, pat, rep) == s;
        assert ReplaceAll(t, pat, rep) == t;
      } else {
        assert s[0] == u[0] != pat[0];
        assert s[..|pat|][0] == s[0];
        assert s[..|pat|] != pat;
        assert ReplaceAll(s, pat, rep) == [s[0]] + ReplaceAll(s[1..], pat, rep);
        assert s[1..] == u[1..] + t;
        ReplaceAfterFreePrefix(u[1..], t, pat, rep);
        assert u == [u[0]] + u[1..];
      }
    } else {
      assert u + t == t;
    }
  }

  /** An occurrence of `pat` at the front is replaced and replacement goes on
      after it. */
  lemma ReplaceAtFront(t: Bytes, pat: Bytes, rep: Bytes)
    requires |pat| > 0
    ensures ReplaceAll(pat + t, pat, rep) == rep + ReplaceAll(t, pat, rep)
  {
    assert (pat + t)[..|pat|] == pat;
    assert (pat + t)[|pat|..] == t;
  }

  /** strings.Join(parts, sep) for a one-byte separator. */
  function Join(parts: seq<Bytes>, sep: Byte): (r: Bytes)
    ensures |parts| == 1 ==> r == parts[0]
    ensures |parts| > 1 ==> r == parts[0] + [sep] + Join(parts[1..], sep)
  {
    if |parts| == 0 then []
    else if |parts| == 1 then parts[0]
    else parts[0] + [sep] + Join(parts[1..], sep)
  }

  /** Joining pieces drawn from a set of bytes, with a separator from it,
      stays within that set. */
  lemma {:induction false} JoinWithin(parts: seq<Bytes>, sep: Byte, allowed: set<Byte>)
    requires sep in allowed
    requires forall i, j | 0 <= i < |parts| && 0 <= j < |parts[i]| :: parts[i][j] in allowed
    ensures forall k | 0 <= k < |Join(parts, sep)| :: Join(parts, sep)[k] in allowed
    decreases |parts|
  {
    if |parts| > 1 {
      var tail := parts[1..];
      assert forall i, j | 0 <= i < |tail| && 0 <= j < |tail[i]| :: tail[i][j] == parts[i + 1][j];
      JoinWithin(tail, sep, allowed);
      var head := parts[0];
      var rest := Join(tail, sep);
      assert Join(parts, sep) == head + [sep] + rest;
      forall k | 0 <= k < |head + [sep] + rest|
        ensures (head + [sep] + rest)[k] in allowed
      {
        if k < |head| {
          assert (head + [sep] + rest)[k] == parts[0][k];
        } else if k > |head| {
          assert (head + [sep] + rest)[k] == rest[k - |head| - 1];
        }
      }
    } else if |parts| == 1 {
      assert forall j | 0 <= j < |parts[0]| :: parts[0][j] in allowed;
    }
  }

  /** strings.Split(s, sep) for a one-byte separator: the pieces between
      separators, always at least one. */
  function Split(s: Bytes, sep: Byte): (parts: seq<Bytes>)
    ensures |parts| >= 1
    ensures forall i | 0 <= i < |parts| :: sep !in parts[i]
    ensures Join(parts, sep) == s
    decreases |s|
  {
    match IndexOf(s, sep)
    case None => [s]
    case Some(i) =>
      var rest := Split(s[i + 1..], sep);
      assert s == s[..i] + [sep] + s[i + 1..];
      [s[..i]] + rest
  }

  /** Splitting at the first separator. */
  lemma SplitAtFirst(a: Bytes, sep: Byte, b: Bytes)
    requires sep !in a
    ensures Split(a + [sep] + b, sep) == [a] + Split(b, sep)
  {
    var s := a + [sep] + b;
    IndexOfAfterFreePrefix(a, sep, b);
    assert s[..|a|] == a;
    assert s[|a| + 1..] == b;
  }

  lemma {:induction false} IndexOfAfterFreePrefix(a: Bytes, sep: Byte, b: Bytes)
    requires sep !in a
    ensures IndexOf(a + [sep] + b, sep) == Some(|a|)
  {
    var s := a + [sep] + b;
    assert s[|a|] == sep;
    assert s[..|a|] == a;
  }

  /** Splitting undoes joining when no part contains the separator. */
  lemma {:induction false} SplitJoin(parts: seq<Bytes>, sep: Byte)
    requires |parts| >= 1
    requires forall i | 0 <= i < |parts| :: sep !in parts[i]
    ensures Split(Join(parts, sep), sep) == parts
    decreases |parts|
  {
    if |parts| == 1 {
      assert IndexOf(parts[0], sep) == None;
    } else {
      SplitAtFirst(parts[0], sep, Join(parts[1..], sep));
      SplitJoin(parts[1..], sep);
      assert parts == [parts[0]] + parts[1..];
    }
  }

  /** The upper-case form of an ASCII letter; every other byte is kept. */
  function UpperByte(b: Byte): (u: Byte)
    ensures !('a' <= u <= 'z')
    ensures 'a' <= b <= 'z' ==> u as int == b as int - 32
    ensures !('a' <= b <= 'z') ==> u == b
  {
    if 'a' <= b <= 'z' then (b as int - 32) as char else b
  }

  /** strings.ToUpper, for the ASCII letters. */
  function ToUpper(s: Bytes): (r: Bytes)
    ensures |r| == |s|
    ensures forall i | 0 <= i < |s| :: r[i] == UpperByte(s[i])
  {
    seq(|s|, i requires 0 <= i < |s| => UpperByte(s[i]))
  }
}
