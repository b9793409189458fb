/**
 * Text, number and sequence machinery shared by every batch script of the
 * reconciliation pipeline: the ECMAScript whitespace classes behind `\s` and
 * `String.prototype.trim`, ASCII digit runs and `Number`/`String` on them,
 * `String.prototype.split`, and the `filter(Boolean)` idiom.
 */
module Common {

  datatype Option<T> = None | Some(value: T)

  /** A thrown exception (TypeError or `throw new Error(...)`) is `Err`. */
  datatype Result<T> = Ok(value: T) | Err(msg: string)

  // ---------------------------------------------------------------------
  // Character classes

  /** ECMAScript LineTerminator: `.` in a regular expression never matches these. */
  predicate IsLineTerminator(c: char) {
    c == '\n' || c == '\r' || c == '\U{2028}' || c == '\U{2029}'
  }

  /**
   * ECMAScript WhiteSpace (TAB, VT, FF, ZWNBSP and every Zs character) together
   * with LineTerminator: exactly the characters `\s` matches and `trim` removes.
   */
  predicate IsSpace(c: char) {
    || c == '\t' || c == '\U{000B}' || c == '\U{000C}' || c == ' '
    || c == '\U{00A0}' || c == '\U{FEFF}' || c == '\U{1680}'
    || ('\U{2000}' <= c <= '\U{200A}')
    || c == '\U{202F}' || c == '\U{205F}' || c == '\U{3000}'
    || IsLineTerminator(c)
  }

  /** `\d` in a JavaScript regular expression: ASCII digits only. */
  predicate IsDigit(c: char) {
    '0' <= c <= '9'
  }

  predicate AllSpace(s: string) {
    forall i :: 0 <= i < |s| ==> IsSpace(s[i])
  }

  predicate AllDigits(s: string) {
    forall i :: 0 <= i < |s| ==> IsDigit(s[i])
  }

  predicate NoLineTerminator(s: string) {
    forall i :: 0 <= i < |s| ==> !IsLineTerminator(s[i])
  }

  // ---------------------------------------------------------------------
  // Trimming

  /** `String.prototype.trimStart`: drops the maximal whitespace prefix. */
  function TrimStart(s: string): (r: string)
    ensures |r| <= |s| && r == s[|s| - |r|..]
    ensures AllSpace(s[..|s| - |r|])
    ensures r == [] || !IsSpace(r[0])
    decreases |s|
  {
    if s != [] && IsSpace(s[0]) then
      var r := TrimStart(s[1..]);
      assert s[..|s| - |r|] == [s[0]] + s[1..][..|s| - 1 - |r|];
      r
    else
      s
  }

  /** `String.prototype.trimEnd`, and `replace(/\s+$/, '')`: drops the maximal whitespace suffix. */
  function TrimEnd(s: string): (r: string)
    ensures |r| <= |s| && r == s[..|r|]
    ensures AllSpace(s[|r|..])
    ensures r == [] || !IsSpace(r[|r| - 1])
    decreases |s|
  {
    if s != [] && IsSpace(s[|s| - 1]) then
      var r := TrimEnd(s[..|s| - 1]);
      assert s[|r|..] == s[..|s| - 1][|r|..] + [s[|s| - 1]];
      r
    else
      s
  }

  /** Neither end of `s` is whitespace. */
  predicate IsTrimmed(s: string) {
    s == [] || (!IsSpace(s[0]) && !IsSpace(s[|s| - 1]))
  }

  /** `String.prototype.trim`. */
  function Trim(s: string): (r: string)
    ensures IsTrimmed(r)
    ensures r == [] <==> AllSpace(s)
  {
    TrimBlankIff(s);
    TrimEnd(TrimStart(s))
  }

  lemma TrimBlankIff(s: string)
    ensures TrimEnd(TrimStart(s)) == [] <==> AllSpace(s)
  {
    var t := TrimStart(s);
    var k := |s| - |t|;
    var r := TrimEnd(t);
    if r == [] {
      assert AllSpace(t) by { assert t[|r|..] == t; }
      SliceOfSlice(s, 0, k);
      AllSpaceSplit(s, k);
    } else {
      assert r[0] == t[0] == s[k] && !IsSpace(s[k]);
    }
  }

  lemma AllSpaceSplit(s: string, k: nat)
    requires k <= |s| && AllSpace(s[..k]) && AllSpace(s[k..])
    ensures AllSpace(s)
  {
    forall i | 0 <= i < |s| ensures IsSpace(s[i]) {
      if i < k { assert s[i] == s[..k][i]; } else { assert s[i] == s[k..][i - k]; }
    }
  }

  /** Trim(s) is a slice of `s` with only whitespace around it. */
  lemma TrimSlice(s: string) returns (k: nat)
    ensures k + |Trim(s)| <= |s| && Trim(s) == s[k..k + |Trim(s)|]
    ensures AllSpace(s[..k]) && AllSpace(s[k + |Trim(s)|..])
  {
    var t := TrimStart(s);
    k := |s| - |t|;
    var r := TrimEnd(t);
    assert r == Trim(s);
    SliceOfSlice(s, k, |r|);
    assert AllSpace(s[..k]);
    assert AllSpace(t[|r|..]);
  }

  /** Whitespace around any text is removed by `trim` along with the text's own. */
  lemma TrimAround(a: string, x: string, b: string)
    requires AllSpace(a) && AllSpace(b)
    ensures Trim(a + x + b) == Trim(x)
  {
    var k := TrimSlice(x);
    var core := Trim(x);
    var pre, post := x[..k], x[k + |core|..];
    SplitThree(x, k, |core|);
    Regroup(a, pre, core, post, b);
    AllSpaceConcat(a, pre);
    AllSpaceConcat(post, b);
    TrimPadded(a + pre, core, post + b);
  }

  lemma SplitThree<T>(x: seq<T>, k: nat, n: nat)
    requires k + n <= |x|
    ensures x == x[..k] + x[k..k + n] + x[k + n..]
  {
  }

  lemma Regroup<T>(a: seq<T>, b: seq<T>, c: seq<T>, d: seq<T>, e: seq<T>)
    ensures a + (b + c + d) + e == (a + b) + c + (d + e)
  {
  }

  lemma AllSpaceConcat(a: string, b: string)
    requires AllSpace(a) && AllSpace(b)
    ensures AllSpace(a + b)
  {
    forall i | 0 <= i < |a + b| ensures IsSpace((a + b)[i]) {
      if i < |a| { assert (a + b)[i] == a[i]; } else { assert (a + b)[i] == b[i - |a|]; }
    }
  }

  /** A slice inside an all-whitespace slice is all whitespace. */
  lemma AllSpaceWithin(t: string, i: nat, j: nat, c: nat, d: nat)
    requires i <= c <= d <= j <= |t| && AllSpace(t[i..j])
    ensures AllSpace(t[c..d])
  {
    forall k | 0 <= k < d - c ensures IsSpace(t[c..d][k]) {
      assert t[c..d][k] == t[i..j][c - i + k];
    }
  }

  lemma NoLineTerminatorWithin(t: string, i: nat, j: nat, c: nat, d: nat)
    requires i <= c <= d <= j <= |t| && NoLineTerminator(t[i..j])
    ensures NoLineTerminator(t[c..d])
  {
    forall k | 0 <= k < d - c ensures !IsLineTerminator(t[c..d][k]) {
      assert t[c..d][k] == t[i..j][c - i + k];
    }
  }

  lemma Glue<T>(s: seq<T>, i: nat, j: nat, k: nat)
    requires i <= j <= k <= |s|
    ensures s[i..j] + s[j..k] == s[i..k]
  {
  }

  lemma SliceOfSlice<T>(s: seq<T>, k: nat, n: nat)
    requires k + n <= |s|
    ensures s[k..][..n] == s[k..k + n] && s[k..][n..] == s[k + n..]
  {
  }

  /** Trimming a line keeps it free of line terminators. */
  lemma TrimNoLineTerminator(s: string)
    requires NoLineTerminator(s)
    ensures NoLineTerminator(Trim(s))
  {
    var k := TrimSlice(s);
    forall i | 0 <= i < |Trim(s)| ensures !IsLineTerminator(Trim(s)[i]) {
      assert Trim(s)[i] == s[k + i];
    }
  }

  lemma {:induction false} TrimStartPadded(a: string, x: string)
    requires AllSpace(a) && (x == [] || !IsSpace(x[0]))
    ensures TrimStart(a + x) == x
    decreases |a|
  {
    if a != [] {
      assert (a + x)[1..] == a[1..] + x;
      TrimStartPadded(a[1..], x);
    } else {
      assert a + x == x;
    }
  }

  lemma {:induction false} TrimEndPadded(x: string, b: string)
    requires AllSpace(b)
    ensures TrimEnd(x + b) == TrimEnd(x)
    decreases |b|
  {
    if b != [] {
      assert (x + b)[..|x + b| - 1] == x + b[..|b| - 1];
      TrimEndPadded(x, b[..|b| - 1]);
    } else {
      assert x + b == x;
    }
  }

  /** Whitespace around a trimmed core is exactly what `trim` removes. */
  lemma TrimPadded(a: string, x: string, b: string)
    requires AllSpace(a) && AllSpace(b) && IsTrimmed(x)
    ensures Trim(a + x + b) == x
  {
    if x == [] {
      assert AllSpace(a + x + b) by {
        forall i | 0 <= i < |a + x + b| ensures IsSpace((a + x + b)[i]) {
          if i < |a| { assert (a + x + b)[i] == a[i]; } else { assert (a + x + b)[i] == b[i - |a|]; }
        }
      }
    } else {
      assert a + x + b == a + (x + b);
      TrimStartPadded(a, x + b);
      TrimEndPadded(x, b);
      assert TrimEnd(x) == x;
    }
  }

  lemma TrimTrimmed(x: string)
    requires IsTrimmed(x)
    ensures Trim(x) == x
  {
    assert TrimStart(x) == x;
    assert TrimEnd(x) == x;
  }

  // ---------------------------------------------------------------------
  // Decimal numbers

  function DigitValue(c: char): nat
    requires IsDigit(c)
  {
    (c as int) - ('0' as int)
  }

  function DigitChar(d: nat): (c: char)
    requires d < 10
    ensures IsDigit(c) && DigitValue(c) == d
  {
    (('0' as int) + d) as char
  }

  /** `Number(s)` for a non-empty string of ASCII digits (leading zeros allowed). */
  function DigitsToNat(s: string): nat
    requires AllDigits(s)
    decreases |s|
  {
    if s == [] then 0 else DigitsToNat(s[..|s| - 1]) * 10 + DigitValue(s[|s| - 1])
  }

  /** `String(n)` for a non-negative integer: canonical decimal, no leading zero. */
  function NatToString(n: nat): (r: string)
    ensures |r| >= 1 && AllDigits(r)
    ensures r[0] == '0' ==> n == 0
    decreases n
  {
    if n < 10 then [DigitChar(n)] else NatToString(n / 10) + [DigitChar(n % 10)]
  }

  /** `Number(String(n)) == n`. */
  lemma {:induction false} NatToStringRoundTrip(n: nat)
    ensures DigitsToNat(NatToString(n)) == n
    decreases n
  {
    if n >= 10 {
      var p := NatToString(n / 10);
      assert (p + [DigitChar(n % 10)])[..|p|] == p;
      NatToStringRoundTrip(n / 10);
    }
  }

  lemma NatToStringInjective(m: nat, n: nat)
    requires NatToString(m) == NatToString(n)
    ensures m == n
  {
    NatToStringRoundTrip(m);
    NatToStringRoundTrip(n);
  }

  /** `String(i)` for an integer. */
  function IntToString(i: int): string {
    if i < 0 then "-" + NatToString(-i) else NatToString(i)
  }

  // ---------------------------------------------------------------------
  // split and join

  /** `String.prototype.split(sep)` for a one-character separator. */
  function Split(s: string, sep: char): (r: seq<string>)
    ensures |r| >= 1
    ensures forall i :: 0 <= i < |r| ==> sep !in r[i]
    decreases |s|
  {
    if s == [] then [""]
    else
      var rest := Split(s[1..], sep);
      if s[0] == sep then [""] + rest else [[s[0]] + rest[0]] + rest[1..]
  }

  /** `Array.prototype.join(sep)` over strings. */
  function Join(parts: seq<string>, sep: string): string
    decreases |parts|
  {
    if |parts| == 0 then ""
    else if |parts| == 1 then parts[0]
    else parts[0] + sep + Join(parts[1..], sep)
  }

  /** Splitting and re-joining on the same separator gives the input back. */
  lemma {:induction false} JoinSplit(s: string, sep: char)
    ensures Join(Split(s, sep), [sep]) == s
    decreases |s|
  {
    if s != [] {
      var rest := Split(s[1..], sep);
      JoinSplit(s[1..], sep);
      if s[0] == sep {
        assert Split(s, sep) == [""] + rest;
        assert ([""] + rest)[1..] == rest;
        assert s == [sep] + s[1..];
      } else {
        var r := [[s[0]] + rest[0]] + rest[1..];
        assert Split(s, sep) == r;
        if |rest| == 1 {
          assert s == [s[0]] + s[1..];
        } else {
          assert r[1..] == rest[1..];
          assert Join(rest, [sep]) == rest[0] + [sep] + Join(rest[1..], [sep]);
          assert s == [s[0]] + s[1..];
        }
      }
    }
  }

  lemma {:induction false} SplitNoSep(a: string, sep: char)
    requires sep !in a
    ensures Split(a, sep) == [a]
    decreases |a|
  {
    if a != [] {
      SplitNoSep(a[1..], sep);
      assert [a[0]] + a[1..] == a;
    }
  }

  lemma {:induction false} SplitAfterPiece(a: string, sep: char, b: string)
    requires sep !in a
    ensures Split(a + [sep] + b, sep) == [a] + Split(b, sep)
    decreases |a|
  {
    if a == [] {
      assert a + [sep] + b == [sep] + b;
      assert ([sep] + b)[1..] == b;
    } else {
      assert (a + [sep] + b)[1..] == a[1..] + [sep] + b;
      SplitAfterPiece(a[1..], sep, b);
      assert [a[0]] + a[1..] == a;
    }
  }

  /** Joining pieces free of the separator and splitting again gives the pieces back. */
  lemma {:induction false} SplitJoin(parts: seq<string>, sep: char)
    requires |parts| >= 1
    requires forall i :: 0 <= i < |parts| ==> sep !in parts[i]
    ensures Split(Join(parts, [sep]), sep) == parts
    decreases |parts|
  {
    if |parts| == 1 {
      SplitNoSep(parts[0], sep);
    } else {
      SplitJoin(parts[1..], sep);
      SplitAfterPiece(parts[0], sep, Join(parts[1..], [sep]));
      assert [parts[0]] + parts[1..] == parts;
    }
  }

  // ---------------------------------------------------------------------
  // filter

  /** The present values of `s`, in order: the `if (!x) continue; out.push(x)` idiom. */
  function FilterMap<T(==,!new)>(s: seq<Option<T>>): (r: seq<T>)
    ensures |r| <= |s|
    ensures forall x :: x in r <==> Some(x) in s
    decreases |s|
  {
    if s == [] then []
    else
      var init := FilterMap(s[..|s| - 1]);
      var last := s[|s| - 1];
      assert s == s[..|s| - 1] + [last];
      if last.Some? then init + [last.value] else init
  }

  lemma FilterMapSnoc<T(!new)>(s: seq<Option<T>>, x: Option<T>)
    ensures FilterMap(s + [x]) == FilterMap(s) + (if x.Some? then [x.value] else [])
  {
    assert (s + [x])[..|s|] == s;
  }

  /** `xs.map(f)`. */
  function MapSeq<A, B>(f: A -> B, xs: seq<A>): seq<B> {
    seq(|xs|, i requires 0 <= i < |xs| => f(xs[i]))
  }

  /**
   * A `for (const x of xs) { const p = f(x); if (!p) continue; ... }` loop:
   * the present results of `f`, in the order of `xs`.
   */
  method CollectSome<A, B(==,!new)>(f: A -> Option<B>, xs: seq<A>) returns (r: seq<B>)
    ensures r == FilterMap(MapSeq(f, xs))
  {
    r := [];
    for i := 0 to |xs|
      invariant r == FilterMap(MapSeq(f, xs[..i]))
    {
      var p := f(xs[i]);
      assert MapSeq(f, xs[..i + 1]) == MapSeq(f, xs[..i]) + [p];
      FilterMapSnoc(MapSeq(f, xs[..i]), p);
      if p.Some? {
        r := r + [p.value];
      }
    }
    assert xs[..|xs|] == xs;
  }

  /** `filter(Boolean)` over strings: keeps the non-empty ones, in order. */
  function NonEmptyOnly(s: seq<string>): (r: seq<string>)
    ensures |r| <= |s|
    ensures forall x :: x in r <==> x in s && x != ""
    ensures multiset(r) == multiset(s)["" := 0]
    decreases |s|
  {
    if s == [] then []
    else
      var rest := NonEmptyOnly(s[1..]);
      assert s == [s[0]] + s[1..];
      if s[0] == "" then rest else [s[0]] + rest
  }

  /** The filter keeps order: filtering a concatenation filters each part. */
  lemma {:induction false} NonEmptyOnlyAppend(a: seq<string>, b: seq<string>)
    ensures NonEmptyOnly(a + b) == NonEmptyOnly(a) + NonEmptyOnly(b)
    decreases |a|
  {
    if a != [] {
      assert (a + b)[0] == a[0];
      assert (a + b)[1..] == a[1..] + b;
      NonEmptyOnlyAppend(a[1..], b);
    } else {
      assert a + b == b;
    }
  }

  /** Drops one trailing carriage return. */
  function DropCR(s: string): string {
    if s != [] && s[|s| - 1] == '\r' then s[..|s| - 1] else s
  }

  /**
   * `raw.split(/\r?\n/).filter(Boolean)`: pieces between line feeds, a
   * carriage return just before a line feed removed, empty pieces dropped.
   */
  function SplitLines(raw: string): (lines: seq<string>)
    ensures forall l :: l in lines ==> l != "" && '\n' !in l
  {
    var pieces := Split(raw, '\n');
    var cut := DropCRs(pieces);
    assert forall l :: l in cut ==> '\n' !in l by {
      forall l | l in cut ensures '\n' !in l {
        var i :| 0 <= i < |cut| && cut[i] == l;
        assert '\n' !in pieces[i];
        if i < |pieces| - 1 && pieces[i] != [] && pieces[i][|pieces[i]| - 1] == '\r' {
          assert forall c :: c in DropCR(pieces[i]) ==> c in pieces[i];
        }
      }
    }
    NonEmptyOnly(cut)
  }

  /** The pieces of `split(/\r?\n/)`: every piece but the last loses a carriage return before its line feed. */
  function DropCRs(pieces: seq<string>): seq<string> {
    seq(|pieces|, i requires 0 <= i < |pieces| =>
      if i < |pieces| - 1 then DropCR(pieces[i]) else pieces[i])
  }

  lemma DropCRsCons(x: string, ys: seq<string>)
    requires |ys| >= 1
    ensures DropCRs([x] + ys) == [DropCR(x)] + DropCRs(ys)
  {
  }

  /** A text without a line feed is one line, dropped when empty. */
  lemma SplitLinesOne(l: string)
    requires '\n' !in l
    ensures SplitLines(l) == if l == "" then [] else [l]
  {
    SplitNoSep(l, '\n');
    assert DropCRs([l]) == [l];
  }

  /**
   * The first line: the text up to the first line feed, without a carriage
   * return just before that line feed, kept when non-empty; then the lines
   * of the rest.
   */
  lemma FirstLine(l: string, rest: string)
    requires '\n' !in l
    ensures SplitLines(l + "\n" + rest) == NonEmptyOnly([DropCR(l)]) + SplitLines(rest)
  {
    SplitAfterPiece(l, '\n', rest);
    DropCRsCons(l, Split(rest, '\n'));
    NonEmptyOnlyAppend([DropCR(l)], DropCRs(Split(rest, '\n')));
  }

  /** Non-empty lines joined with `\n` (none ending in a carriage return) split back into themselves. */
  lemma {:induction false} SplitLinesJoinLf(lines: seq<string>)
    requires forall i :: 0 <= i < |lines| ==> lines[i] != "" && '\n' !in lines[i]
    requires forall i :: 0 <= i < |lines| ==> lines[i][|lines[i]| - 1] != '\r'
    ensures SplitLines(Join(lines, "\n")) == lines
    decreases |lines|
  {
    if |lines| == 0 {
      SplitLinesOne("");
    } else if |lines| == 1 {
      SplitLinesOne(lines[0]);
    } else {
      FirstLine(lines[0], Join(lines[1..], "\n"));
      SplitLinesJoinLf(lines[1..]);
      assert [lines[0]] + lines[1..] == lines;
    }
  }

  /** Non-empty lines joined with `\r\n` split back into themselves: each carriage return goes with its line feed. */
  lemma {:induction false} SplitLinesJoinCrlf(lines: seq<string>)
    requires forall i :: 0 <= i < |lines| ==> lines[i] != "" && '\n' !in lines[i]
    ensures SplitLines(Join(lines, "\r\n")) == lines
    decreases |lines|
  {
    if |lines| == 0 {
      SplitLinesOne("");
    } else if |lines| == 1 {
      SplitLinesOne(lines[0]);
    } else {
      var l := lines[0] + "\r";
      var rest := Join(lines[1..], "\r\n");
      assert Join(lines, "\r\n") == l + "\n" + rest;
      assert DropCR(l) == lines[0];
      FirstLine(l, rest);
      SplitLinesJoinCrlf(lines[1..]);
      assert [lines[0]] + lines[1..] == lines;
    }
  }

  // ---------------------------------------------------------------------
  // Loops that may throw

  /**
   * A loop whose steps each contribute a value, nothing, or throw: the
   * contributions in order, or the first error.
   */
  function Gather<T>(outs: seq<Result<Option<T>>>): Result<seq<T>>
    decreases |outs|
  {
    if outs == [] then Ok([])
    else
      match Gather(outs[..|outs| - 1])
      case Err(m) => Err(m)
      case Ok(rs) =>
        match outs[|outs| - 1]
        case Err(m) => Err(m)
        case Ok(None) => Ok(rs)
        case Ok(Some(r)) => Ok(rs + [r])
  }

  /** The values of steps none of which threw. */
  function OkValues<T>(outs: seq<Result<T>>): seq<T>
    requires forall i :: 0 <= i < |outs| ==> outs[i].Ok?
  {
    seq(|outs|, i requires 0 <= i < |outs| => outs[i].value)
  }

  /** The loop throws exactly when some step does. */
  lemma {:induction false} GatherErr<T>(outs: seq<Result<Option<T>>>)
    ensures Gather(outs).Err? <==> exists i :: 0 <= i < |outs| && outs[i].Err?
    decreases |outs|
  {
    if outs != [] {
      var init := outs[..|outs| - 1];
      GatherErr(init);
      if exists i :: 0 <= i < |init| && init[i].Err? {
        var i :| 0 <= i < |init| && init[i].Err?;
        assert outs[i] == init[i];
      }
      if exists i :: 0 <= i < |outs| && outs[i].Err? {
        var i :| 0 <= i < |outs| && outs[i].Err?;
        if i < |init| { assert outs[i] == init[i]; }
      }
    }
  }

  /** When no step throws, the result is exactly the contributions, in order. */
  lemma {:induction false} GatherOk<T(!new)>(outs: seq<Result<Option<T>>>)
    requires forall i :: 0 <= i < |outs| ==> outs[i].Ok?
    ensures Gather(outs) == Ok(FilterMap(OkValues(outs)))
    decreases |outs|
  {
    if outs != [] {
      var init := outs[..|outs| - 1];
      assert forall i :: 0 <= i < |init| ==> init[i].Ok? by {
        forall i | 0 <= i < |init| ensures init[i].Ok? {
          assert init[i] == outs[i];
        }
      }
      GatherOk(init);
      assert OkValues(outs) == OkValues(init) + [outs[|outs| - 1].value];
      FilterMapSnoc(OkValues(init), outs[|outs| - 1].value);
    }
  }

  /** Once a prefix of the steps throws, the loop ends with that error. */
  lemma {:induction false} GatherPrefix<T>(outs: seq<Result<Option<T>>>, n: nat)
    requires n <= |outs| && Gather(outs[..n]).Err?
    ensures Gather(outs) == Gather(outs[..n])
    decreases |outs| - n
  {
    if n == |outs| {
      assert outs[..n] == outs;
    } else {
      assert outs[..n + 1][..n] == outs[..n];
      GatherPrefix(outs, n + 1);
    }
  }

  /** One step more of the loop, after a prefix that did not throw. */
  lemma GatherStep<T>(outs: seq<Result<Option<T>>>, i: nat)
    requires i < |outs| && Gather(outs[..i]).Ok?
    ensures outs[i].Err? ==> Gather(outs[..i + 1]) == Err(outs[i].msg)
    ensures outs[i] == Ok(None) ==> Gather(outs[..i + 1]) == Gather(outs[..i])
    ensures outs[i].Ok? && outs[i].value.Some? ==>
      Gather(outs[..i + 1]) == Ok(Gather(outs[..i]).value + [outs[i].value.value])
  {
    assert outs[..i + 1][..i] == outs[..i];
  }

  /** The first `n` values numbered from 1, as `obj[String(i + 1)] = values[i]` builds them. */
  function NumberFrom1<V>(values: seq<V>, n: nat): map<nat, V>
    requires n <= |values|
  {
    map v: nat | 1 <= v <= n :: NumberedAt(values, v)
  }

  function NumberedAt<V>(values: seq<V>, v: nat): V
    requires 1 <= v <= |values|
  {
    values[v - 1]
  }

  lemma NumberFrom1Empty<V>(values: seq<V>)
    ensures NumberFrom1(values, 0) == map[]
  {
  }

  lemma NumberFrom1Step<V>(values: seq<V>, n: nat)
    requires n < |values|
    ensures NumberFrom1(values, n + 1) == NumberFrom1(values, n)[n + 1 := values[n]]
  {
  }
}
