/** Small string helpers shared by the CSV and path modules: JavaScript's
    `startsWith`, `includes`, `split` on one character, `join` with one
    character and ASCII `toLowerCase`. */
module Strings {

  /** `p` occurs in `s` at position `i`, compared from `p[j]` on.  Written
      with indices only, so that the verifier can decide it on literals. */
  predicate MatchAt(s: string, p: string, i: nat, j: nat)
    requires i + |p| <= |s|
    decreases |p| - j
  {
    j >= |p| || (s[i + j] == p[j] && MatchAt(s, p, i, j + 1))
  }

  lemma {:induction false} MatchAtSlice(s: string, p: string, i: nat, j: nat)
    requires i + |p| <= |s| && j <= |p|
    ensures MatchAt(s, p, i, j) <==> s[i + j..i + |p|] == p[j..]
    decreases |p| - j
  {
    if j < |p| {
      MatchAtSlice(s, p, i, j + 1);
      assert s[i + j..i + |p|] == [s[i + j]] + s[i + j + 1..i + |p|];
      assert p[j..] == [p[j]] + p[j + 1..];
    }
  }

  /** `s.startsWith(p)` */
  predicate StartsWith(s: string, p: string)
  {
    |p| <= |s| && MatchAt(s, p, 0, 0)
  }

  lemma StartsWithPrefix(s: string, p: string)
    ensures StartsWith(s, p) <==> |p| <= |s| && s[..|p|] == p
  {
    if |p| <= |s| {
      MatchAtSlice(s, p, 0, 0);
    }
  }

  /** `p` occurs in `s` at some position `i` or later. */
  predicate ContainsFrom(s: string, p: string, i: nat)
    decreases |s| - i
  {
    i + |p| <= |s| && (MatchAt(s, p, i, 0) || ContainsFrom(s, p, i + 1))
  }

  /** A common beginning does not change whether one string starts with
      another. */
  lemma StartsWithAfter(x: string, y: string, z: string)
    ensures StartsWith(x + y, x + z) <==> StartsWith(y, z)
  {
    StartsWithPrefix(x + y, x + z);
    StartsWithPrefix(y, z);
    if |z| <= |y| {
      assert (x + y)[..|x| + |z|] == x + y[..|z|];
    }
    if StartsWith(x + y, x + z) {
      assert (x + y)[|x|..|x| + |z|] == y[..|z|];
      assert (x + z)[|x|..] == z;
    }
  }

  /** A prefix without `sep` starts `a + [sep] + b` exactly when it starts
      the first piece `a`. */
  lemma StartsWithPiece(a: string, sep: char, b: string, p: string)
    requires sep !in p
    ensures StartsWith(a + [sep] + b, p) <==> StartsWith(a, p)
  {
    var s := a + [sep] + b;
    StartsWithPrefix(s, p);
    StartsWithPrefix(a, p);
    if |p| <= |a| {
      assert s[..|p|] == a[..|p|];
    } else if |p| <= |s| {
      assert s[..|p|][|a|] == sep;
    }
  }

  /** A prefix without `sep` starts a join exactly when it starts the first
      part. */
  lemma StartsWithFirstPart(parts: seq<string>, sep: char, p: string)
    requires |parts| >= 1 && sep !in p
    ensures StartsWith(JoinWith(parts, sep), p) <==> StartsWith(parts[0], p)
  {
    if |parts| > 1 {
      StartsWithPiece(parts[0], sep, JoinWith(parts[1..], sep), p);
    }
  }

  /** `s.includes(sub)` */
  predicate Contains(s: string, sub: string)
  {
    ContainsFrom(s, sub, 0)
  }

  /** No `a` in `s` is directly followed by `b`. */
  predicate PairAbsent(s: string, a: char, b: char)
  {
    forall k :: 0 <= k < |s| - 1 ==> !(s[k] == a && s[k + 1] == b)
  }

  /** A match at `i` puts `p[j]` at `s[i + j]`. */
  lemma MatchAtChar(s: string, p: string, i: nat, j: nat)
    requires i + |p| <= |s| && j < |p|
    ensures MatchAt(s, p, i, 0) ==> s[i + j] == p[j]
  {
    MatchAtSlice(s, p, i, 0);
    if MatchAt(s, p, i, 0) {
      assert s[i..i + |p|][j] == p[j];
    }
  }

  /** A string in which two neighbouring characters of `sub` never stand
      side by side does not contain `sub`. */
  lemma {:induction false} NotContainsFrom(s: string, sub: string, j: nat, i: nat)
    requires j + 1 < |sub| && PairAbsent(s, sub[j], sub[j + 1])
    ensures !ContainsFrom(s, sub, i)
    decreases |s| - i
  {
    if i + |sub| <= |s| {
      MatchAtChar(s, sub, i, j);
      MatchAtChar(s, sub, i, j + 1);
      assert !(s[i + j] == sub[j] && s[i + j + 1] == sub[j + 1]);
      NotContainsFrom(s, sub, j, i + 1);
    }
  }

  lemma NotContains(s: string, sub: string, j: nat)
    requires j + 1 < |sub| && PairAbsent(s, sub[j], sub[j + 1])
    ensures !Contains(s, sub)
  {
    NotContainsFrom(s, sub, j, 0);
  }

  /** `s.split(sep)`: the pieces between separators, empty pieces included;
      there is always one more piece than there are separators. */
  function Split(s: string, sep: char): (r: seq<string>)
    ensures |r| >= 1
    ensures forall i :: 0 <= i < |r| ==> sep !in r[i]
    decreases |s|
  {
    if s == [] then [""]
    else if s[0] == sep then [""] + Split(s[1..], sep)
    else
      var rest := Split(s[1..], sep);
      [[s[0]] + rest[0]] + rest[1..]
  }

  /** `parts.join(sep)` */
  function JoinWith(parts: seq<string>, sep: char): string
    decreases |parts|
  {
    if parts == [] then ""
    else if |parts| == 1 then parts[0]
    else parts[0] + [sep] + JoinWith(parts[1..], sep)
  }

  /** Splitting `a + [sep] + b` where `a` holds no separator gives `a` first. */
  lemma {:induction false} SplitAfterPiece(a: string, sep: char, b: string)
    requires sep !in a
    ensures Split(a + [sep] + b, sep) == [a] + Split(b, sep)
    decreases |a|
  {
    if a == [] {
      assert a + [sep] + b == [sep] + b;
      assert ([sep] + b)[1..] == b;
    } else {
      assert (a + [sep] + b)[1..] == a[1..] + [sep] + b;
      SplitAfterPiece(a[1..], sep, b);
      assert [a[0]] + a[1..] == a;
    }
  }

  /** A piece without separator splits to itself. */
  lemma {:induction false} SplitPlain(a: string, sep: char)
    requires sep !in a
    ensures Split(a, sep) == [a]
    decreases |a|
  {
    if a != [] {
      SplitPlain(a[1..], sep);
      assert [a[0]] + a[1..] == a;
    }
  }

  /** `split` undoes `join` when no piece holds the separator. */
  lemma {:induction false} SplitJoin(parts: seq<string>, sep: char)
    requires |parts| >= 1
    requires forall i :: 0 <= i < |parts| ==> sep !in parts[i]
    ensures Split(JoinWith(parts, sep), sep) == parts
    decreases |parts|
  {
    if |parts| == 1 {
      SplitPlain(parts[0], sep);
    } else {
      SplitAfterPiece(parts[0], sep, JoinWith(parts[1..], sep));
      SplitJoin(parts[1..], sep);
      assert [parts[0]] + parts[1..] == parts;
    }
  }

  lemma {:induction false} JoinAvoids(parts: seq<string>, sep: char, c: char)
    requires c != sep
    requires forall i :: 0 <= i < |parts| ==> c !in parts[i]
    ensures c !in JoinWith(parts, sep)
    decreases |parts|
  {
    if |parts| > 1 {
      JoinAvoids(parts[1..], sep, c);
    }
  }

  lemma {:induction false} JoinLength(parts: seq<string>, sep: char, k: nat)
    requires forall i :: 0 <= i < |parts| ==> |parts[i]| <= k
    ensures |JoinWith(parts, sep)| <= |parts| * (k + 1)
    decreases |parts|
  {
    if |parts| > 1 {
      JoinLength(parts[1..], sep, k);
    }
  }

  lemma {:induction false} JoinWithAppend(parts: seq<string>, last: string, sep: char)
    requires |parts| >= 1
    ensures JoinWith(parts + [last], sep) == JoinWith(parts, sep) + [sep] + last
    decreases |parts|
  {
    if |parts| == 1 {
      assert parts + [last] == [parts[0], last];
    } else {
      assert (parts + [last])[1..] == parts[1..] + [last];
      JoinWithAppend(parts[1..], last, sep);
    }
  }

  /** Joining two non-empty lists is joining each and putting one separator
      between the results. */
  lemma {:induction false} JoinWithConcat(a: seq<string>, b: seq<string>, sep: char)
    requires |a| >= 1 && |b| >= 1
    ensures JoinWith(a + b, sep) == JoinWith(a, sep) + [sep] + JoinWith(b, sep)
    decreases |a|
  {
    if |a| == 1 {
      assert (a + b)[1..] == b;
    } else {
      assert (a + b)[1..] == a[1..] + b;
      JoinWithConcat(a[1..], b, sep);
    }
  }

  /** Regrouping concatenations, stated once so that proofs need not
      rediscover it. */
  lemma Regroup<T>(a: seq<T>, b: seq<T>, c: seq<T>, d: seq<T>)
    ensures a + b + c + d == a + (b + (c + d))
    ensures a + b + c == a + (b + c)
  {
  }

  /** ASCII `toLowerCase`; other characters are kept as they are. */
  function ToLowerAscii(s: string): (r: string)
    ensures |r| == |s|
    ensures forall i :: 0 <= i < |s| ==>
      r[i] == if 'A' <= s[i] <= 'Z' then (s[i] as int + 32) as char else s[i]
    decreases |s|
  {
    if s == [] then ""
    else
      var c := s[0];
      [if 'A' <= c <= 'Z' then (c as int + 32) as char else c] + ToLowerAscii(s[1..])
  }

  /** A string without upper-case ASCII letters is its own lower case. */
  lemma LowerUnchanged(s: string)
    requires forall i :: 0 <= i < |s| ==> !('A' <= s[i] <= 'Z')
    ensures ToLowerAscii(s) == s
  {
  }
}
