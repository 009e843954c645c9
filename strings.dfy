/**
 * The parts of Go's `strings` and `strconv` packages that the core relies on,
 * written out as functions over `string` (= `seq<char>`), with the properties
 * the rest of the model needs proved about them.
 */
module Strings {

  /** strings.HasPrefix */
  predicate HasPrefix(s: string, prefix: string) {
    |prefix| <= |s| && s[..|prefix|] == prefix
  }

  /** strings.TrimPrefix: drops `prefix` once if `s` starts with it. */
  function TrimPrefix(s: string, prefix: string): (r: string)
    ensures HasPrefix(s, prefix) ==> s == prefix + r
    ensures !HasPrefix(s, prefix) ==> r == s
  {
    if HasPrefix(s, prefix) then s[|prefix|..] else s
  }

  /** `sub` occurs in `s` starting at index `i`. */
  predicate OccursAt(s: string, sub: string, i: int) {
    0 <= i && i + |sub| <= |s| && s[i..i + |sub|] == sub
  }

  /** The leftmost index at or after `from` where `sub` occurs in `s`, or -1. */
  function IndexFrom(s: string, sub: string, from: nat): (i: int)
    decreases |s| - from
    ensures i == -1 || (from <= i && OccursAt(s, sub, i))
  {
    if from + |sub| > |s| then -1
    else if s[from..from + |sub|] == sub then from
    else IndexFrom(s, sub, from + 1)
  }

  /** No occurrence at or after `from` precedes the one IndexFrom finds. */
  lemma {:induction false} IndexFromFirst(s: string, sub: string, from: nat)
    decreases |s| - from
    ensures var i := IndexFrom(s, sub, from);
      forall j :: from <= j && (i == -1 || j < i) ==> !OccursAt(s, sub, j)
  {
    if from + |sub| <= |s| && s[from..from + |sub|] != sub {
      IndexFromFirst(s, sub, from + 1);
    }
  }

  /** strings.Index: the leftmost occurrence of `sub` in `s`, or -1. */
  function Index(s: string, sub: string): (i: int)
    ensures i == -1 || OccursAt(s, sub, i)
  {
    IndexFrom(s, sub, 0)
  }

  /** Index finds the leftmost occurrence. */
  lemma IndexFirst(s: string, sub: string)
    ensures forall j :: 0 <= j && (Index(s, sub) == -1 || j < Index(s, sub)) ==> !OccursAt(s, sub, j)
  {
    IndexFromFirst(s, sub, 0);
  }

  /** strings.Contains */
  predicate Contains(s: string, sub: string) {
    Index(s, sub) >= 0
  }

  lemma ContainsChar(s: string, c: char)
    ensures Contains(s, [c]) <==> c in s
  {
    IndexFirst(s, [c]);
    if c in s {
      var k :| 0 <= k < |s| && s[k] == c;
      assert OccursAt(s, [c], k);
    } else {
      forall j | 0 <= j && j + 1 <= |s| ensures !OccursAt(s, [c], j) {
        assert s[j..j + 1][0] == s[j];
      }
    }
  }

  /**
   * strings.Split for a non-empty separator: the pieces between the
   * leftmost non-overlapping occurrences of `sep`. There is always at least one piece.
   */
  function Split(s: string, sep: string): (parts: seq<string>)
    requires |sep| > 0
    decreases |s|
    ensures |parts| >= 1
  {
    var i := Index(s, sep);
    if i < 0 then [s] else [s[..i]] + Split(s[i + |sep|..], sep)
  }

  /** strings.Join */
  function Join(parts: seq<string>, sep: string): string
    decreases |parts|
  {
    if |parts| == 0 then ""
    else if |parts| == 1 then parts[0]
    else parts[0] + sep + Join(parts[1..], sep)
  }

  /** strings.ReplaceAll for a non-empty `pattern`: every leftmost non-overlapping occurrence replaced. */
  function ReplaceAll(s: string, pattern: string, replacement: string): string
    requires |pattern| > 0
  {
    Join(Split(s, pattern), replacement)
  }

  /** Replacing a pattern that occurs only as the leading prefix replaces just that prefix. */
  lemma ReplaceAllLeading(p: string, s: string, r: string)
    requires |p| > 0 && !Contains(s, p)
    ensures ReplaceAll(p + s, p, r) == r + s
  {
    var t := p + s;
    assert t[0..|p|] == p;
    assert Index(t, p) == 0;
    assert t[|p|..] == s;
    SplitUnfold(t, p);
    SplitUnfold(s, p);
    assert Split(t, p) == [""] + [s];
    JoinCons("", [s], r);
  }

  /** Dropping the last element of a concatenation with a non-empty tail. */
  lemma AppendFront<T>(a: seq<T>, b: seq<T>)
    requires b != []
    ensures (a + b)[..|a + b| - 1] == a + b[..|b| - 1] && (a + b)[|a + b| - 1] == b[|b| - 1]
  {
  }

  /** Split unfolded once. */
  lemma SplitUnfold(s: string, sep: string)
    requires |sep| > 0
    ensures var i := Index(s, sep);
      if i < 0 then Split(s, sep) == [s]
      else Split(s, sep) == [s[..i]] + Split(s[i + |sep|..], sep)
  {
  }

  /** Join unfolded once in front of a non-empty list. */
  lemma JoinCons(head: string, rest: seq<string>, sep: string)
    requires |rest| >= 1
    ensures Join([head] + rest, sep) == head + sep + Join(rest, sep)
  {
    assert ([head] + rest)[1..] == rest;
  }

  /** Joining the pieces of a split with the same separator gives back the input. */
  lemma {:induction false} JoinSplit(s: string, sep: string)
    requires |sep| > 0
    decreases |s|
    ensures Join(Split(s, sep), sep) == s
  {
    var i := Index(s, sep);
    SplitUnfold(s, sep);
    if i >= 0 {
      var rest := s[i + |sep|..];
      JoinSplit(rest, sep);
      JoinCons(s[..i], Split(rest, sep), sep);
      assert s[i..i + |sep|] == sep;
      assert s == s[..i] + s[i..i + |sep|] + rest;
    }
  }

  /** No piece of a split contains the separator. */
  lemma {:induction false} SplitPiecesFree(s: string, sep: string)
    requires |sep| > 0
    decreases |s|
    ensures forall p :: p in Split(s, sep) ==> !Contains(p, sep)
  {
    var i := Index(s, sep);
    IndexFirst(s, sep);
    if i >= 0 {
      var head := s[..i];
      forall j | 0 <= j ensures !OccursAt(head, sep, j) {
        if OccursAt(head, sep, j) {
          assert head[j..j + |sep|] == s[j..j + |sep|];
          assert OccursAt(s, sep, j);
        }
      }
      SplitPiecesFree(s[i + |sep|..], sep);
    }
  }

  /** The leftmost occurrence of a single character. */
  lemma IndexChar(s: string, c: char)
    ensures var i := Index(s, [c]);
      if i < 0 then c !in s
      else i < |s| && s[i] == c && c !in s[..i] && s == s[..i] + [c] + s[i + 1..]
  {
    var i := Index(s, [c]);
    ContainsChar(s, c);
    IndexFirst(s, [c]);
    if i >= 0 {
      assert s[i..i + 1][0] == s[i];
      forall k | 0 <= k < i ensures s[k] != c {
        assert !OccursAt(s, [c], k);
        assert s[k..k + 1][0] == s[k];
      }
      assert s == s[..i] + [c] + s[i + 1..];
    }
  }

  /** The first piece of a split on one character: `s` up to that character's first occurrence, or all of `s`. */
  lemma SplitFirst(s: string, c: char)
    ensures var p := Split(s, [c])[0];
      c !in p && |p| <= |s| && s[..|p|] == p && (|p| == |s| || s[|p|] == c)
  {
    IndexChar(s, c);
    SplitUnfold(s, [c]);
  }

  /** The first piece of `x`, the character, then anything, is `x` when `x` does not hold the character. */
  lemma SplitFirstPiece(x: string, c: char, rest: string)
    requires c !in x
    ensures Split(x + [c] + rest, [c])[0] == x
  {
    IndexAfterFreePrefix(x, rest, c);
    SplitUnfold(x + [c] + rest, [c]);
    assert (x + [c] + rest)[..|x|] == x;
  }

  /** When the character occurs, the second piece is the first piece of what follows its first occurrence. */
  lemma SplitSecond(s: string, c: char)
    requires c in s
    ensures var i := |Split(s, [c])[0]|;
      i < |s| && |Split(s, [c])| >= 2 && Split(s, [c])[1] == Split(s[i + 1..], [c])[0]
  {
    IndexChar(s, c);
    SplitUnfold(s, [c]);
  }

  /** Joining one more piece. */
  lemma {:induction false} JoinSnoc(xs: seq<string>, y: string, sep: string)
    requires |xs| >= 1
    decreases |xs|
    ensures Join(xs + [y], sep) == Join(xs, sep) + sep + y
  {
    if |xs| > 1 {
      JoinSnoc(xs[1..], y, sep);
      assert (xs + [y])[1..] == xs[1..] + [y];
    }
  }

  /** The leftmost occurrence of a single character is at the first piece's end. */
  lemma IndexAfterFreePrefix(x: string, rest: string, c: char)
    requires c !in x
    ensures Index(x + [c] + rest, [c]) == |x|
  {
    var s := x + [c] + rest;
    IndexFirst(s, [c]);
    assert s[|x|..|x| + 1] == [c];
    assert OccursAt(s, [c], |x|);
    forall j | 0 <= j < |x| ensures !OccursAt(s, [c], j) {
      assert s[j..j + 1][0] == x[j];
    }
  }

  lemma IndexAbsent(x: string, c: char)
    requires c !in x
    ensures Index(x, [c]) == -1
  {
    ContainsChar(x, c);
  }

  /** Splitting a join on a one-character separator that no piece contains gives back the pieces. */
  lemma {:induction false} SplitJoin(parts: seq<string>, c: char)
    requires |parts| >= 1
    requires forall k :: 0 <= k < |parts| ==> c !in parts[k]
    decreases |parts|
    ensures Split(Join(parts, [c]), [c]) == parts
  {
    if |parts| == 1 {
      IndexAbsent(parts[0], c);
    } else {
      var rest := Join(parts[1..], [c]);
      IndexAfterFreePrefix(parts[0], rest, c);
      var s := parts[0] + [c] + rest;
      assert Join(parts, [c]) == s;
      assert s[..|parts[0]|] == parts[0];
      assert s[|parts[0]| + 1..] == rest;
      assert Split(s, [c]) == [parts[0]] + Split(rest, [c]);
      SplitJoin(parts[1..], c);
      assert parts == [parts[0]] + parts[1..];
    }
  }

  /** strings.FieldsFunc helper: the length of the leading run of non-separator characters. */
  function RunLength(s: string, seps: set<char>): (n: nat)
    decreases |s|
    ensures n <= |s|
    ensures forall i :: 0 <= i < n ==> s[i] !in seps
    ensures n < |s| ==> s[n] in seps
  {
    if s == [] || s[0] in seps then 0 else 1 + RunLength(s[1..], seps)
  }

  /**
   * strings.FieldsFunc with the separator predicate given as a set: the maximal
   * runs of non-separator characters, in order; empty fields never appear.
   */
  function Fields(s: string, seps: set<char>): (fs: seq<string>)
    decreases |s|
    ensures forall k :: 0 <= k < |fs| ==> |fs[k]| > 0
    ensures forall k, i :: 0 <= k < |fs| && 0 <= i < |fs[k]| ==> fs[k][i] !in seps
  {
    if s == [] then []
    else if s[0] in seps then Fields(s[1..], seps)
    else
      var n := RunLength(s, seps);
      [s[..n]] + Fields(s[n..], seps)
  }

  /** The length of the leading run of separator characters. */
  function LeadingSeparators(s: string, seps: set<char>): (n: nat)
    decreases |s|
    ensures n <= |s|
    ensures forall m :: 0 <= m < n ==> s[m] in seps
  {
    if s != [] && s[0] in seps then 1 + LeadingSeparators(s[1..], seps) else 0
  }

  /**
   * The first field is the first maximal run of non-separators: only separators
   * precede it, and it ends at the end of `s` or at a separator.
   */
  lemma {:induction false} FieldsHead(s: string, seps: set<char>)
    requires Fields(s, seps) != []
    decreases |s|
    ensures var f, i := Fields(s, seps)[0], LeadingSeparators(s, seps);
      i + |f| <= |s| && s[i..i + |f|] == f && (i + |f| == |s| || s[i + |f|] in seps)
  {
    var f := Fields(s, seps)[0];
    if s[0] in seps {
      FieldsHead(s[1..], seps);
      var i := LeadingSeparators(s[1..], seps);
      assert s[i + 1..i + 1 + |f|] == s[1..][i..i + |f|];
    } else {
      assert s[0..|f|] == f;
    }
  }

  /** A string with no separator character is a single field (or none if empty). */
  lemma FieldsOfPlain(s: string, seps: set<char>)
    requires forall i :: 0 <= i < |s| ==> s[i] !in seps
    ensures Fields(s, seps) == if s == [] then [] else [s]
  {
    if s != [] {
      assert s[0] !in seps;
      var n := RunLength(s, seps);
      assert n == |s|;
      assert s[..n] == s && s[n..] == [];
    }
  }

  /** Same length, separators at the same positions, equal characters elsewhere. */
  predicate SameShape(s: string, t: string, seps: set<char>) {
    && |s| == |t|
    && forall i :: 0 <= i < |s| ==> (s[i] in seps <==> t[i] in seps) && (s[i] !in seps ==> s[i] == t[i])
  }

  lemma {:induction false} RunLengthSameShape(s: string, t: string, seps: set<char>)
    requires SameShape(s, t, seps)
    decreases |s|
    ensures RunLength(s, seps) == RunLength(t, seps)
    ensures s[..RunLength(s, seps)] == t[..RunLength(t, seps)]
  {
    if s != [] && s[0] !in seps {
      assert SameShape(s[1..], t[1..], seps) by {
        forall i | 0 <= i < |s| - 1 ensures (s[1..][i] in seps <==> t[1..][i] in seps) && (s[1..][i] !in seps ==> s[1..][i] == t[1..][i]) {
          assert s[1..][i] == s[i + 1] && t[1..][i] == t[i + 1];
        }
      }
      RunLengthSameShape(s[1..], t[1..], seps);
      var n := RunLength(s, seps);
      assert s[..n] == [s[0]] + s[1..][..n - 1];
      assert t[..n] == [t[0]] + t[1..][..n - 1];
    }
  }

  /** Fields only see where the separators are, not which separator it is. */
  lemma {:induction false} FieldsSameShape(s: string, t: string, seps: set<char>)
    requires SameShape(s, t, seps)
    decreases |s|
    ensures Fields(s, seps) == Fields(t, seps)
  {
    if s != [] {
      if s[0] in seps {
        assert SameShape(s[1..], t[1..], seps) by {
          forall i | 0 <= i < |s| - 1 ensures (s[1..][i] in seps <==> t[1..][i] in seps) && (s[1..][i] !in seps ==> s[1..][i] == t[1..][i]) {
            assert s[1..][i] == s[i + 1] && t[1..][i] == t[i + 1];
          }
        }
        FieldsSameShape(s[1..], t[1..], seps);
      } else {
        RunLengthSameShape(s, t, seps);
        var n := RunLength(s, seps);
        assert SameShape(s[n..], t[n..], seps) by {
          forall i | 0 <= i < |s| - n ensures (s[n..][i] in seps <==> t[n..][i] in seps) && (s[n..][i] !in seps ==> s[n..][i] == t[n..][i]) {
            assert s[n..][i] == s[i + n] && t[n..][i] == t[i + n];
          }
        }
        FieldsSameShape(s[n..], t[n..], seps);
      }
    }
  }

  predicate SeparatorFree(s: string, seps: set<char>) {
    forall i :: 0 <= i < |s| ==> s[i] !in seps
  }

  lemma {:induction false} RunLengthBeforeSeparator(p: string, rest: string, seps: set<char>)
    requires SeparatorFree(p, seps) && rest != [] && rest[0] in seps
    decreases |p|
    ensures RunLength(p + rest, seps) == |p|
  {
    if p != [] {
      assert (p + rest)[1..] == p[1..] + rest;
      RunLengthBeforeSeparator(p[1..], rest, seps);
    }
  }

  /** Non-empty separator-free pieces joined by a separator are split back into the pieces. */
  lemma {:induction false} FieldsOfJoin(parts: seq<string>, c: char, seps: set<char>)
    requires c in seps && |parts| >= 1
    requires forall k :: 0 <= k < |parts| ==> |parts[k]| > 0 && SeparatorFree(parts[k], seps)
    decreases |parts|
    ensures Fields(Join(parts, [c]), seps) == parts
  {
    if |parts| == 1 {
      FieldsOfPlain(parts[0], seps);
    } else {
      var p, tail := parts[0], Join(parts[1..], [c]);
      var rest := [c] + tail;
      var s := p + rest;
      assert Join(parts, [c]) == s;
      RunLengthBeforeSeparator(p, rest, seps);
      assert s[0] == p[0] && s[..|p|] == p && s[|p|..] == rest;
      assert Fields(s, seps) == [p] + Fields(rest, seps);
      assert rest[1..] == tail;
      assert Fields(rest, seps) == Fields(tail, seps);
      FieldsOfJoin(parts[1..], c, seps);
    }
  }

  /** unicode.IsSpace as used by strings.TrimSpace. */
  predicate IsSpace(c: char) {
    c == '\t' || c == '\n' || c == '\U{B}' || c == '\U{C}' || c == '\r' || c == ' '
    || c == '\U{85}' || c == '\U{A0}' || c == '\U{1680}'
    || ('\U{2000}' <= c <= '\U{200A}')
    || c == '\U{2028}' || c == '\U{2029}' || c == '\U{202F}' || c == '\U{205F}' || c == '\U{3000}'
  }

  predicate AllSpace(s: string) {
    forall k :: 0 <= k < |s| ==> IsSpace(s[k])
  }

  /** strings.TrimLeftFunc(s, unicode.IsSpace) */
  function TrimLeftSpace(s: string): (r: string)
    decreases |s|
    ensures |r| <= |s|
  {
    if s != [] && IsSpace(s[0]) then TrimLeftSpace(s[1..]) else s
  }

  /** Only leading white space is removed, and all of it. */
  lemma {:induction false} TrimLeftSpaceMeaning(s: string)
    decreases |s|
    ensures var r := TrimLeftSpace(s);
      && r == s[|s| - |r|..] && AllSpace(s[..|s| - |r|]) && (r == [] || !IsSpace(r[0]))
  {
    if s != [] && IsSpace(s[0]) {
      TrimLeftSpaceMeaning(s[1..]);
      var r := TrimLeftSpace(s[1..]);
      assert s[..|s| - |r|] == [s[0]] + s[1..][..|s| - 1 - |r|];
    }
  }

  /** strings.TrimRightFunc(s, unicode.IsSpace) */
  function TrimRightSpace(s: string): (r: string)
    decreases |s|
    ensures |r| <= |s|
  {
    if s != [] && IsSpace(s[|s| - 1]) then TrimRightSpace(s[..|s| - 1]) else s
  }

  /** Only trailing white space is removed, and all of it. */
  lemma {:induction false} TrimRightSpaceMeaning(s: string)
    decreases |s|
    ensures var r := TrimRightSpace(s);
      && r == s[..|r|] && AllSpace(s[|r|..]) && (r == [] || !IsSpace(r[|r| - 1]))
  {
    if s != [] && IsSpace(s[|s| - 1]) {
      TrimRightSpaceMeaning(s[..|s| - 1]);
      var r := TrimRightSpace(s[..|s| - 1]);
      assert s[|r|..] == s[..|s| - 1][|r|..] + [s[|s| - 1]];
    }
  }

  /** strings.TrimSpace: `s` without its leading and trailing white space. */
  function TrimSpace(s: string): (r: string)
    ensures |r| <= |s|
  {
    TrimRightSpace(TrimLeftSpace(s))
  }

  /** TrimSpace leaves a slice of `s` that neither starts nor ends with white space, and drops only white space. */
  lemma TrimSpaceMeaning(s: string)
    ensures var r := TrimSpace(s);
      exists i, j :: 0 <= i <= j <= |s| && r == s[i..j] && AllSpace(s[..i]) && AllSpace(s[j..])
    ensures var r := TrimSpace(s);
      r == [] || (!IsSpace(r[0]) && !IsSpace(r[|r| - 1]))
  {
    var l := TrimLeftSpace(s);
    TrimLeftSpaceMeaning(s);
    TrimRightSpaceMeaning(l);
    TrimmedBetween(s, l, TrimRightSpace(l));
    TrimmedEnds(l, TrimRightSpace(l));
  }

  /** A string neither starting nor ending with white space is its own trim. */
  lemma TrimSpaceUnchanged(s: string)
    requires s == [] || (!IsSpace(s[0]) && !IsSpace(s[|s| - 1]))
    ensures TrimSpace(s) == s
  {
  }

  /** A prefix of a list that starts on a non-space, ending on a non-space, starts and ends on one. */
  lemma TrimmedEnds(l: string, r: string)
    requires l == [] || !IsSpace(l[0])
    requires |r| <= |l| && r == l[..|r|]
    requires r == [] || !IsSpace(r[|r| - 1])
    ensures r == [] || (!IsSpace(r[0]) && !IsSpace(r[|r| - 1]))
  {
    if r != [] {
      assert r[0] == l[0];
    }
  }

  /** Trimming the front and then the back leaves a slice with white space on both sides. */
  lemma TrimmedBetween(s: string, l: string, r: string)
    requires |l| <= |s| && l == s[|s| - |l|..] && AllSpace(s[..|s| - |l|])
    requires |r| <= |l| && r == l[..|r|] && AllSpace(l[|r|..])
    ensures exists i, j :: 0 <= i <= j <= |s| && r == s[i..j] && AllSpace(s[..i]) && AllSpace(s[j..])
  {
    var i := |s| - |l|;
    assert r == s[i..i + |r|];
    assert s[i + |r|..] == l[|r|..];
  }

  // ---------------------------------------------------------------------
  // strconv.Atoi on a 64-bit platform


  const MaxInt64: int := 0x7FFF_FFFF_FFFF_FFFF
  const MinInt64: int := -0x8000_0000_0000_0000
  const MaxUint64: int := 0xFFFF_FFFF_FFFF_FFFF

  /** An ASCII decimal digit (Go compares bytes against '0'..'9'). */
  predicate IsDigit(c: char) {
    '0' <= c <= '9'
  }

  predicate AllDigits(s: string) {
    forall i :: 0 <= i < |s| ==> IsDigit(s[i])
  }

  /** The value of a string of decimal digits. */
  function DigitsValue(s: string): nat
    requires AllDigits(s)
    decreases |s|
  {
    if s == [] then 0 else DigitsValue(s[..|s| - 1]) * 10 + (s[|s| - 1] as int - '0' as int)
  }

  /** Whether s starts with a '-' sign. */
  predicate Negative(s: string) {
    s != [] && s[0] == '-'
  }

  /** What follows an optional leading '+' or '-'. */
  function Unsigned(s: string): (u: string)
    ensures |u| <= |s|
  {
    if s != [] && (s[0] == '+' || s[0] == '-') then s[1..] else s
  }

  /** How strconv.ParseUint's digit loop ends. */
  datatype UintScan = Value(n: nat) | SyntaxError | RangeError

  /**
   * strconv.ParseUint's loop over the digits from position k, where d[..k] has
   * already been read: a non-digit ends it with a syntax error, and a prefix whose
   * value exceeds the uint64 range ends it with a range error before any later
   * character is looked at.
   */
  function ScanUint(d: string, k: nat): (r: UintScan)
    requires k <= |d| && AllDigits(d[..k]) && DigitsValue(d[..k]) <= MaxUint64
    decreases |d| - k
    ensures r.Value? ==> r.n <= MaxUint64
  {
    if k == |d| then Value(DigitsValue(d[..k]))
    else if !IsDigit(d[k]) then SyntaxError
    else
      assert d[..k + 1][..k] == d[..k];
      if DigitsValue(d[..k + 1]) > MaxUint64 then RangeError
      else ScanUint(d, k + 1)
  }

  /** The scan strconv.Atoi performs on s (the empty number is a syntax error). */
  function ScanOf(s: string): UintScan {
    if Unsigned(s) == [] then SyntaxError else ScanUint(Unsigned(s), 0)
  }

  /** strconv.Atoi returns a syntax error for s. */
  predicate IsSyntaxError(s: string) {
    ScanOf(s).SyntaxError?
  }

  /** The int Atoi returns together with whether it returned a nil error. */
  datatype IntParse = IntParse(value: int, ok: bool)

  /**
   * strconv.Atoi: an optional '+' or '-' followed by at least one digit.
   * A syntax error yields 0; a value outside the int range is clamped to the
   * nearest bound (both with a non-nil error). The fast path Go takes for
   * strings shorter than 19 bytes gives the same results, since no such string
   * overflows.
   */
  function Atoi(s: string): (r: IntParse)
    ensures MinInt64 <= r.value <= MaxInt64
    ensures '-' !in s ==> r.value >= 0
    ensures r.ok ==> Unsigned(s) != [] && AllDigits(Unsigned(s))
    ensures IsSyntaxError(s) ==> r == IntParse(0, false)
  {
    match ScanOf(s)
    case SyntaxError => IntParse(0, false)
    case RangeError => if Negative(s) then IntParse(MinInt64, false) else IntParse(MaxInt64, false)
    case Value(u) =>
      ScanValueDigits(Unsigned(s), 0);
      var n: int := if Negative(s) then 0 - u else u;
      if n > MaxInt64 then IntParse(MaxInt64, false)
      else if n < MinInt64 then IntParse(MinInt64, false)
      else IntParse(n, true)
  }

  /** A scan that ends with a value has read only digits. */
  lemma {:induction false} ScanValueDigits(d: string, k: nat)
    requires k <= |d| && AllDigits(d[..k]) && DigitsValue(d[..k]) <= MaxUint64
    requires ScanUint(d, k).Value?
    decreases |d| - k
    ensures AllDigits(d)
  {
    if k == |d| {
      assert d[..k] == d;
    } else {
      assert d[..k + 1][..k] == d[..k];
      ScanValueDigits(d, k + 1);
    }
  }

  /** A longer prefix of a digit string has at least the value of a shorter one. */
  lemma {:induction false} DigitsValuePrefix(s: string, i: nat)
    requires AllDigits(s) && i <= |s|
    decreases |s|
    ensures AllDigits(s[..i]) && DigitsValue(s[..i]) <= DigitsValue(s)
  {
    if i < |s| {
      var front := s[..|s| - 1];
      DigitsValuePrefix(front, i);
      assert front[..i] == s[..i];
    } else {
      assert s[..i] == s;
    }
  }

  /** On a string of digits the scan overflows exactly when the whole value does. */
  lemma {:induction false} ScanAllDigits(d: string, k: nat)
    requires AllDigits(d) && k <= |d| && DigitsValue(d[..k]) <= MaxUint64
    decreases |d| - k
    ensures ScanUint(d, k) == if DigitsValue(d) > MaxUint64 then RangeError else Value(DigitsValue(d))
  {
    if k == |d| {
      assert d[..k] == d;
    } else {
      assert d[..k + 1][..k] == d[..k];
      DigitsValuePrefix(d, k + 1);
      if DigitsValue(d[..k + 1]) <= MaxUint64 {
        ScanAllDigits(d, k + 1);
      }
    }
  }

  /**
   * The scan from k ends in a syntax error exactly when a non-digit comes at some
   * position j >= k whose digits before it still fit in the uint64 range.
   */
  lemma {:induction false} ScanSyntaxError(d: string, k: nat)
    requires k <= |d| && AllDigits(d[..k]) && DigitsValue(d[..k]) <= MaxUint64
    decreases |d| - k
    ensures ScanUint(d, k).SyntaxError? <==>
      exists j :: k <= j < |d| && !IsDigit(d[j]) && AllDigits(d[..j]) && DigitsValue(d[..j]) <= MaxUint64
  {
    if k < |d| && IsDigit(d[k]) {
      assert d[..k + 1][..k] == d[..k];
      if DigitsValue(d[..k + 1]) > MaxUint64 {
        forall j | k < j < |d| && AllDigits(d[..j]) ensures DigitsValue(d[..j]) > MaxUint64 {
          DigitsValuePrefix(d[..j], k + 1);
          assert d[..j][..k + 1] == d[..k + 1];
        }
      } else {
        ScanSyntaxError(d, k + 1);
      }
    }
  }

  /**
   * Atoi of an optionally signed string of digits: the value, clamped to the int
   * range with a non-nil error when it does not fit.
   */
  lemma AtoiOfDigits(s: string)
    requires Unsigned(s) != [] && AllDigits(Unsigned(s))
    ensures var n := if Negative(s) then 0 - DigitsValue(Unsigned(s)) else DigitsValue(Unsigned(s));
      Atoi(s) == if n > MaxInt64 then IntParse(MaxInt64, false)
                 else if n < MinInt64 then IntParse(MinInt64, false)
                 else IntParse(n, true)
  {
    assert Unsigned(s)[..0] == [];
    ScanAllDigits(Unsigned(s), 0);
  }

  /**
   * Atoi gives a syntax error (and 0) exactly for an empty number and for one
   * where a non-digit comes before the digits read so far leave the uint64 range.
   */
  lemma SyntaxErrorMeaning(s: string)
    ensures IsSyntaxError(s) <==> (Unsigned(s) == [] ||
      exists j :: 0 <= j < |Unsigned(s)| && !IsDigit(Unsigned(s)[j]) && AllDigits(Unsigned(s)[..j])
                  && DigitsValue(Unsigned(s)[..j]) <= MaxUint64)
  {
    if Unsigned(s) != [] {
      assert Unsigned(s)[..0] == [];
      ScanSyntaxError(Unsigned(s), 0);
    }
  }

  /**
   * Digits that already leave the uint64 range decide the result, whatever
   * follows them: the bound of the sign, with a range error.
   */
  lemma AtoiOverflow(s: string, j: nat)
    requires j <= |Unsigned(s)| && AllDigits(Unsigned(s)[..j]) && DigitsValue(Unsigned(s)[..j]) > MaxUint64
    ensures Atoi(s) == IntParse(if Negative(s) then MinInt64 else MaxInt64, false)
  {
    var d := Unsigned(s);
    assert d[..0] == [];
    var k: nat := 0;
    while true
      invariant k <= j && AllDigits(d[..k]) && DigitsValue(d[..k]) <= MaxUint64
      invariant ScanUint(d, k) == ScanUint(d, 0)
      decreases j - k
    {
      assert d[..j][..k + 1] == d[..k + 1];
      if k + 1 == j || DigitsValue(d[..k + 1]) > MaxUint64 {
        DigitsValuePrefix(d[..j], k + 1);
        assert d[..j][..k] == d[..k];
        break;
      }
      assert d[..k + 1][..k] == d[..k];
      k := k + 1;
    }
  }

  /** The padding component "-1" parses to -1. */
  lemma AtoiMinusOne()
    ensures Atoi("-1") == IntParse(-1, true)
  {
    assert Unsigned("-1") == "1";
    assert "1"[..0] == "";
    assert "1"[..1] == "1";
    assert DigitsValue("1") == 1;
    AtoiOfDigits("-1");
  }
}
