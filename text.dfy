/** Go runtime outcomes: a run either yields a value or stops on a runtime panic or a fatal log. */
module Runtime {

  datatype Abort =
    | IndexOutOfRange   // `s[i]` with `i` outside the slice
    | SliceOutOfRange   // `s[i:j]` with bounds outside the slice or `i > j`
    | Fatal(message: string)   // `log.Fatal`/`log.Fatalf`: the process exits

  datatype Result<+T> = Ok(value: T) | Failed(abort: Abort)

  datatype Option<+T> = None | Some(value: T)
}

/**
  The operations of Go's `strings` package that the generator and the CLI use,
  over `string` (`seq<char>`), plus the lexicographic order Go's `<` puts on strings.
 */
module Text {

  /** `sub` occurs in `s` starting at position `k`. */
  predicate OccursAt(s: string, sub: string, k: int)
  {
    0 <= k && k + |sub| <= |s| && s[k..k + |sub|] == sub
  }

  /** The first position at or after `k` where `sub` occurs in `s`, or -1. */
  function IndexFrom(s: string, sub: string, k: nat): (r: int)
    ensures r == -1 || (k <= r && OccursAt(s, sub, r))
    ensures forall j :: k <= j && (r == -1 || j < r) ==> !OccursAt(s, sub, j)
    decreases |s| - k
  {
    if k + |sub| > |s| then -1
    else if s[k..k + |sub|] == sub then k
    else IndexFrom(s, sub, k + 1)
  }

  /** strings.Index: the first position where `sub` occurs in `s`, or -1 when it does not occur. */
  function IndexOf(s: string, sub: string): (r: int)
    ensures r == -1 || OccursAt(s, sub, r)
    ensures forall j :: (r == -1 || j < r) ==> !OccursAt(s, sub, j)
  {
    IndexFrom(s, sub, 0)
  }

  /** strings.Contains, defined as Go defines it (`Index(s, sub) >= 0`). */
  predicate Contains(s: string, sub: string)
  {
    IndexOf(s, sub) >= 0
  }

  /** A one-character text is contained exactly when that character occurs. */
  lemma ContainsChar(s: string, c: char)
    ensures Contains(s, [c]) <==> c in s
  {
    if c in s {
      var k :| 0 <= k < |s| && s[k] == c;
      assert s[k..k + 1] == [c];
      assert OccursAt(s, [c], k);
    }
    var r := IndexOf(s, [c]);
    if r >= 0 {
      assert s[r..r + 1][0] == s[r];
    }
  }

  predicate HasPrefix(s: string, prefix: string)
  {
    |prefix| <= |s| && s[..|prefix|] == prefix
  }

  predicate HasSuffix(s: string, suffix: string)
  {
    |suffix| <= |s| && s[|s| - |suffix|..] == suffix
  }

  /** strings.Split with a one-character separator: the pieces between separators, in order. */
  function Split(s: string, sep: char): (r: seq<string>)
    ensures |r| >= 1
    ensures forall i :: 0 <= i < |r| ==> sep !in r[i]
  {
    if |s| == 0 then [""]
    else
      var rest := Split(s[1..], sep);
      if s[0] == sep then [""] + rest else [[s[0]] + rest[0]] + rest[1..]
  }

  /** strings.Join with a one-character separator. */
  function Join(parts: seq<string>, sep: char): string
  {
    if |parts| == 0 then ""
    else if |parts| == 1 then parts[0]
    else parts[0] + [sep] + Join(parts[1..], sep)
  }

  /** Joining the pieces of a split gives back the original text. */
  lemma {:induction false} JoinSplit(s: string, sep: char)
    ensures Join(Split(s, sep), sep) == s
  {
    if |s| > 0 {
      var rest := Split(s[1..], sep);
      JoinSplit(s[1..], sep);
      if s[0] == sep {
        assert Split(s, sep) == [""] + rest;
        assert ([""] + rest)[1..] == rest;
      } else {
        var parts := [[s[0]] + rest[0]] + rest[1..];
        assert Split(s, sep) == parts;
        if |rest| > 1 {
          assert parts[1..] == rest[1..];
          assert Join(rest, sep) == rest[0] + [sep] + Join(rest[1..], sep);
        }
      }
    }
  }

  lemma {:induction false} SplitWithoutSep(a: string, sep: char)
    requires sep !in a
    ensures Split(a, sep) == [a]
  {
    if |a| > 0 {
      assert a[0] in a;
      SplitWithoutSep(a[1..], sep);
      assert [a[0]] + a[1..] == a;
    }
  }

  lemma {:induction false} SplitAfterPiece(a: string, b: string, sep: char)
    requires sep !in a
    ensures Split(a + [sep] + b, sep) == [a] + Split(b, sep)
  {
    var s := a + [sep] + b;
    if |a| == 0 {
      assert s[1..] == b;
    } else {
      assert s[1..] == a[1..] + [sep] + b;
      SplitAfterPiece(a[1..], b, sep);
      assert [a[0]] + a[1..] == a;
    }
  }

  /** Splitting a join of separator-free pieces gives back the pieces. */
  lemma {:induction false} SplitJoin(parts: seq<string>, sep: char)
    requires |parts| >= 1
    requires forall i :: 0 <= i < |parts| ==> sep !in parts[i]
    ensures Split(Join(parts, sep), sep) == parts
  {
    if |parts| == 1 {
      SplitWithoutSep(parts[0], sep);
    } else {
      SplitJoin(parts[1..], sep);
      SplitAfterPiece(parts[0], Join(parts[1..], sep), sep);
      assert [parts[0]] + parts[1..] == parts;
    }
  }

  /** Joining two non-empty lists of pieces puts one separator between the two joins. */
  lemma {:induction false} JoinAppend(a: seq<string>, b: seq<string>, sep: char)
    requires |a| >= 1 && |b| >= 1
    ensures Join(a + b, sep) == Join(a, sep) + [sep] + Join(b, sep)
  {
    if |a| == 1 {
      assert (a + b)[1..] == b;
    } else {
      assert (a + b)[1..] == a[1..] + b;
      JoinAppend(a[1..], b, sep);
    }
  }

  /** A split has exactly one piece exactly when the separator does not occur. */
  lemma {:induction false} SplitSinglePiece(s: string, sep: char)
    ensures |Split(s, sep)| == 1 <==> sep !in s
  {
    if sep !in s {
      SplitWithoutSep(s, sep);
    } else if |s| > 0 && s[0] != sep {
      assert sep in s[1..] by {
        var k :| 0 <= k < |s| && s[k] == sep;
        assert s[1..][k - 1] == sep;
      }
      SplitSinglePiece(s[1..], sep);
    }
  }

  /** The first piece of a split is empty exactly when the text is empty or starts with the separator. */
  lemma FirstPieceEmpty(s: string, sep: char)
    ensures Split(s, sep)[0] == "" <==> (s == "" || s[0] == sep)
  {
  }

  /** The position of the last occurrence of `c` in `s`, or -1. */
  function LastIndex(s: string, c: char): (r: int)
    ensures -1 <= r < |s|
    ensures r >= 0 ==> s[r] == c
    ensures forall j :: r < j < |s| ==> s[j] != c
  {
    if |s| == 0 then -1
    else if s[|s| - 1] == c then |s| - 1
    else LastIndex(s[..|s| - 1], c)
  }

  /** The last piece of `strings.Split(s, sep)`. */
  function LastSegment(s: string, sep: char): (r: string)
    ensures sep !in r
    ensures HasSuffix(s, r)
    ensures |r| < |s| ==> s[|s| - |r| - 1] == sep
  {
    var parts := Split(s, sep);
    LastPieceFollowsSep(s, sep);
    parts[|parts| - 1]
  }

  /** The text ends with the last piece of its split, preceded by a separator when there are several. */
  lemma LastPieceFollowsSep(s: string, sep: char)
    ensures var parts := Split(s, sep); var r := parts[|parts| - 1];
      HasSuffix(s, r) && (|parts| == 1 ==> r == s) && (|parts| > 1 ==> |r| < |s| && s[|s| - |r| - 1] == sep)
  {
    var parts := Split(s, sep);
    JoinSplit(s, sep);
    if |parts| > 1 {
      JoinAppend(parts[..|parts| - 1], [parts[|parts| - 1]], sep);
      assert parts[..|parts| - 1] + [parts[|parts| - 1]] == parts;
    }
  }

  /** `strings.Split(s, sep)[0]` for a separator of any non-zero length: the text before its first occurrence. */
  function BeforeFirst(s: string, sep: string): (r: string)
    requires |sep| > 0
    ensures HasPrefix(s, r)
    ensures |r| == |s| <==> !Contains(s, sep)
    ensures |r| < |s| ==> OccursAt(s, sep, |r|) && forall j :: 0 <= j < |r| ==> !OccursAt(s, sep, j)
  {
    var k := IndexOf(s, sep);
    if k >= 0 then s[..k] else s
  }

  /** Cutting at a one-character separator: the piece holds no separator, and the separator follows it when it is shorter. */
  lemma BeforeFirstChar(s: string, c: char)
    ensures c !in BeforeFirst(s, [c])
    ensures |BeforeFirst(s, [c])| < |s| ==> s[|BeforeFirst(s, [c])|] == c
  {
    var r := BeforeFirst(s, [c]);
    forall j | 0 <= j < |r| ensures r[j] != c {
      assert r[j] == s[j];
      assert !OccursAt(s, [c], j) by {
        if |r| == |s| {
          assert IndexOf(s, [c]) == -1;
        }
      }
      assert s[j..j + 1] == [s[j]];
    }
    if |r| < |s| {
      assert s[|r|..|r| + 1] == [s[|r|]];
    }
  }

  /** strings.ReplaceAll: every non-overlapping occurrence of `pat`, scanning from the left, becomes `rep`. */
  function ReplaceAll(s: string, pat: string, rep: string): string
    requires |pat| > 0
    decreases |s|
  {
    if |s| == 0 then ""
    else if HasPrefix(s, pat) then rep + ReplaceAll(s[|pat|..], pat, rep)
    else [s[0]] + ReplaceAll(s[1..], pat, rep)
  }

  /** Text in which `pat` never occurs is left unchanged. */
  lemma {:induction false} ReplaceAllAbsent(s: string, pat: string, rep: string)
    requires |pat| > 0
    requires !Contains(s, pat)
    ensures ReplaceAll(s, pat, rep) == s
  {
    if |s| > 0 {
      assert !OccursAt(s, pat, 0);
      forall j | OccursAt(s[1..], pat, j) ensures false {
        assert s[1..][j..j + |pat|] == s[j + 1..j + 1 + |pat|];
        assert OccursAt(s, pat, j + 1);
      }
      ReplaceAllAbsent(s[1..], pat, rep);
    }
  }

  /** Deleting a character works one leading character at a time. */
  lemma RemoveCharStep(x: char, s: string, c: char)
    ensures ReplaceAll([x] + s, [c], "") == (if x == c then "" else [x]) + ReplaceAll(s, [c], "")
  {
    var t := [x] + s;
    assert t[1..] == s;
    assert HasPrefix(t, [c]) <==> x == c;
  }

  /** Deleting one character keeps every other character, and only those. */
  lemma {:induction false} RemoveCharMembers(s: string, c: char, x: char)
    ensures x in ReplaceAll(s, [c], "") <==> x in s && x != c
  {
    if |s| > 0 {
      RemoveCharMembers(s[1..], c, x);
      assert HasPrefix(s, [c]) <==> s[0] == c;
      assert s == [s[0]] + s[1..];
    }
  }

  predicate IsUpper(c: char)
  {
    'A' <= c <= 'Z'
  }

  function LowerChar(c: char): (r: char)
    ensures !IsUpper(r)
    ensures !IsUpper(c) ==> r == c
  {
    if IsUpper(c) then (c as int + 32) as char else c
  }

  /** strings.ToLower restricted to ASCII letters. */
  function ToLower(s: string): (r: string)
    ensures |r| == |s|
    ensures forall i :: 0 <= i < |r| ==> !IsUpper(r[i])
    ensures forall i :: 0 <= i < |s| && !IsUpper(s[i]) ==> r[i] == s[i]
  {
    seq(|s|, i requires 0 <= i < |s| => LowerChar(s[i]))
  }

  /** Go's `a < b` on strings: lexicographic, a proper prefix coming first. */
  predicate Less(a: string, b: string)
  {
    if |a| == 0 then |b| > 0
    else if |b| == 0 then false
    else if a[0] != b[0] then a[0] < b[0]
    else Less(a[1..], b[1..])
  }

  lemma {:induction false} LessTransitive(a: string, b: string, c: string)
    requires Less(a, b) && Less(b, c)
    ensures Less(a, c)
  {
    if |a| > 0 && |b| > 0 && |c| > 0 && a[0] == b[0] == c[0] {
      LessTransitive(a[1..], b[1..], c[1..]);
    }
  }

  /** Any two distinct strings are ordered one way or the other. */
  lemma {:induction false} LessTotal(a: string, b: string)
    requires a != b
    ensures Less(a, b) || Less(b, a)
  {
    if |a| > 0 && |b| > 0 && a[0] == b[0] {
      assert a == [a[0]] + a[1..] && b == [b[0]] + b[1..];
      LessTotal(a[1..], b[1..]);
    }
  }

  lemma {:induction false} LessAsymmetric(a: string, b: string)
    requires Less(a, b)
    ensures !Less(b, a)
  {
    if |a| > 0 && |b| > 0 && a[0] == b[0] {
      LessAsymmetric(a[1..], b[1..]);
    }
  }

  /** The first index of `v` in `s`, or -1: the specification of the search loops. */
  function FirstIndex<T(==)>(s: seq<T>, v: T): (r: int)
    ensures -1 <= r < |s|
    ensures r >= 0 ==> s[r] == v && v !in s[..r]
    ensures r == -1 <==> v !in s
  {
    if |s| == 0 then -1
    else if s[0] == v then 0
    else
      var k := FirstIndex(s[1..], v);
      if k == -1 then -1 else k + 1
  }

  /** No value occurs twice. */
  predicate NoDuplicates<T(==)>(s: seq<T>)
  {
    forall i, j :: 0 <= i < j < |s| ==> s[i] != s[j]
  }

  /** `n` copies of `c` (strings.Repeat of a one-character string). */
  function Repeat(c: char, n: nat): (r: string)
    ensures |r| == n
    ensures forall i :: 0 <= i < n ==> r[i] == c
  {
    if n == 0 then "" else Repeat(c, n - 1) + [c]
  }
}
