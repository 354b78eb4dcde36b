/**
 * The Python string operations the graph code relies on, written out on
 * `seq<char>`: `str.split(sep)`, `sep.join(parts)`, `str.split()`,
 * `str.strip()`, single-character `str.replace`, `str(i)` for integers,
 * `int(s)`, and the code-point order that `sorted` uses on strings.
 */
module Text {
  import opened Wrappers

  // ---------------------------------------------------------------------
  // Characters

  /** The characters for which Python's `str.isspace()` holds; `split()` and
      `strip()` without arguments cut on exactly these. */
  predicate IsSpace(c: char) {
    var k := c as int;
    (9 <= k <= 13) || (28 <= k <= 32) || k == 0x85 || k == 0xA0 || k == 0x1680
    || (0x2000 <= k <= 0x200A) || k == 0x2028 || k == 0x2029 || k == 0x202F
    || k == 0x205F || k == 0x3000
  }

  predicate NoSpace(s: string) {
    forall i :: 0 <= i < |s| ==> !IsSpace(s[i])
  }

  predicate IsDigit(c: char) {
    '0' as int <= c as int <= '9' as int
  }

  /** Number of occurrences of `c` in `s`. */
  function Count(s: string, c: char): nat {
    if s == [] then 0 else (if s[0] == c then 1 else 0) + Count(s[1..], c)
  }

  lemma {:induction false} CountAppend(a: string, b: string, c: char)
    ensures Count(a + b, c) == Count(a, c) + Count(b, c)
  {
    if a == [] {
      assert a + b == b;
    } else {
      assert (a + b)[0] == a[0];
      assert (a + b)[1..] == a[1..] + b;
      CountAppend(a[1..], b, c);
    }
  }

  // ---------------------------------------------------------------------
  // str.split(sep) and sep.join(parts) for a one-character separator

  /** Python's `s.split(c)`: the pieces between occurrences of `c`, so
      `"".split(c) == [""]` and adjacent separators give empty pieces. */
  function Split(s: string, c: char): (r: seq<string>)
    ensures |r| >= 1
    decreases |s|
  {
    if s == [] then [""]
    else if s[0] == c then [""] + Split(s[1..], c)
    else
      var rest := Split(s[1..], c);
      [[s[0]] + rest[0]] + rest[1..]
  }

  /** Python's `c.join(parts)`. */
  function Join(parts: seq<string>, c: char): string
    decreases |parts|
  {
    if parts == [] then ""
    else if |parts| == 1 then parts[0]
    else parts[0] + [c] + Join(parts[1..], c)
  }

  lemma {:induction false} JoinSplit(s: string, c: char)
    ensures Join(Split(s, c), c) == s
    decreases |s|
  {
    if s == [] {
    } else if s[0] == c {
      JoinSplit(s[1..], c);
      assert s == [c] + s[1..];
    } else {
      JoinSplit(s[1..], c);
      var rest := Split(s[1..], c);
      if |rest| == 1 {
        assert s == [s[0]] + rest[0];
      } else {
        assert rest == [rest[0]] + rest[1..];
        assert Join(rest, c) == rest[0] + [c] + Join(rest[1..], c);
        assert s == [s[0]] + s[1..];
      }
    }
  }

  lemma {:induction false} SplitPiecesFree(s: string, c: char)
    ensures forall i :: 0 <= i < |Split(s, c)| ==> c !in Split(s, c)[i]
    decreases |s|
  {
    if s != [] {
      SplitPiecesFree(s[1..], c);
    }
  }

  /** The pieces are made of characters of `s`. */
  lemma {:induction false} SplitPiecesFrom(s: string, c: char)
    ensures forall i, x :: 0 <= i < |Split(s, c)| && x in Split(s, c)[i] ==> x in s
    decreases |s|
  {
    if s != [] {
      SplitPiecesFrom(s[1..], c);
      var r := Split(s, c);
      assert s == [s[0]] + s[1..];
      forall i, x | 0 <= i < |r| && x in r[i] ensures x in s {
        var rest := Split(s[1..], c);
        if s[0] != c && i == 0 {
          assert r[0] == [s[0]] + rest[0];
          if x != s[0] {
            assert x in rest[0];
            assert x in s[1..];
          }
        } else if s[0] != c {
          assert r[i] == rest[i];
          assert x in s[1..];
        } else {
          assert r[i] == rest[i - 1];
          assert x in s[1..];
        }
      }
    }
  }

  lemma {:induction false} SplitLength(s: string, c: char)
    ensures |Split(s, c)| == Count(s, c) + 1
    decreases |s|
  {
    if s != [] {
      SplitLength(s[1..], c);
    }
  }

  /** Splitting a joined sequence of separator-free pieces gives the pieces back. */
  lemma {:induction false} SplitJoin(parts: seq<string>, c: char)
    requires |parts| >= 1
    requires forall i :: 0 <= i < |parts| ==> c !in parts[i]
    ensures Split(Join(parts, c), c) == parts
    decreases |parts|
  {
    if |parts| == 1 {
      SplitFree(parts[0], c);
    } else {
      SplitJoin(parts[1..], c);
      SplitPrefix(parts[0], Join(parts[1..], c), c);
      assert parts == [parts[0]] + parts[1..];
    }
  }

  lemma {:induction false} SplitFree(w: string, c: char)
    requires c !in w
    ensures Split(w, c) == [w]
    decreases |w|
  {
    if w != [] {
      SplitFree(w[1..], c);
      assert w == [w[0]] + w[1..];
    }
  }

  lemma {:induction false} SplitPrefix(w: string, t: string, c: char)
    requires c !in w
    ensures Split(w + [c] + t, c) == [w] + Split(t, c)
    decreases |w|
  {
    if w == [] {
      assert w + [c] + t == [c] + t;
      assert ([c] + t)[1..] == t;
    } else {
      assert (w + [c] + t)[1..] == w[1..] + [c] + t;
      SplitPrefix(w[1..], t, c);
      assert w == [w[0]] + w[1..];
    }
  }

  /** Joining pieces, the first of which is free of the separator, puts the
      first piece in front. */
  lemma JoinCons(p: string, rest: seq<string>, c: char)
    requires rest != []
    ensures Join([p] + rest, c) == p + [c] + Join(rest, c)
  {
    assert ([p] + rest)[1..] == rest;
  }

  /** Splitting a join whose pieces before the last are free of the
      separator gives those pieces, then the split of the last one. */
  lemma {:induction false} SplitJoinLast(parts: seq<string>, last: string, c: char)
    requires forall i :: 0 <= i < |parts| ==> c !in parts[i]
    ensures Split(Join(parts + [last], c), c) == parts + Split(last, c)
    decreases |parts|
  {
    if parts == [] {
      assert parts + [last] == [last];
    } else {
      var p, tail := parts[0], parts[1..];
      assert c !in p;
      SplitJoinLast(tail, last, c);
      SplitJoinLastStep(p, tail + [last], tail + Split(last, c), c);
      Uncons(parts, [last]);
      Uncons(parts, Split(last, c));
    }
  }

  lemma Uncons<T>(s: seq<T>, y: seq<T>)
    requires s != []
    ensures s + y == [s[0]] + (s[1..] + y)
  {
  }

  /** The inductive step of `SplitJoinLast`: a separator-free piece put in
      front of a join comes out in front of its split. */
  lemma SplitJoinLastStep(p: string, rest: seq<string>, pieces: seq<string>, c: char)
    requires c !in p && rest != []
    requires Split(Join(rest, c), c) == pieces
    ensures Split(Join([p] + rest, c), c) == [p] + pieces
  {
    JoinCons(p, rest, c);
    SplitPrefix(p, Join(rest, c), c);
  }

  // ---------------------------------------------------------------------
  // str.split() without arguments, str.strip(), single-character replace

  /** The longest prefix of `s` without whitespace. */
  function Word(s: string): (w: string)
    ensures |w| <= |s| && w == s[..|w|] && NoSpace(w)
    ensures |w| < |s| ==> IsSpace(s[|w|])
    decreases |s|
  {
    if s == [] || IsSpace(s[0]) then "" else [s[0]] + Word(s[1..])
  }

  /** Python's `s.split()`: the maximal runs of non-whitespace characters. */
  function SplitWs(s: string): (r: seq<string>)
    ensures forall i :: 0 <= i < |r| ==> r[i] != "" && NoSpace(r[i])
    decreases |s|
  {
    if s == [] then []
    else if IsSpace(s[0]) then SplitWs(s[1..])
    else
      var w := Word(s);
      [w] + SplitWs(s[|w|..])
  }

  lemma {:induction false} WordOf(w: string, t: string)
    requires NoSpace(w)
    requires t == [] || IsSpace(t[0])
    ensures Word(w + t) == w
    decreases |w|
  {
    if w != [] {
      assert (w + t)[1..] == w[1..] + t;
      WordOf(w[1..], t);
      assert w == [w[0]] + w[1..];
    }
  }

  /** A word followed by whitespace or nothing is split off as the first field. */
  lemma SplitWsWord(w: string, t: string)
    requires w != [] && NoSpace(w)
    requires t == [] || IsSpace(t[0])
    ensures SplitWs(w + t) == [w] + SplitWs(t)
  {
    WordOf(w, t);
    assert (w + t)[0] == w[0];
    assert (w + t)[|w|..] == t;
  }

  /** Leading whitespace is skipped. */
  lemma SplitWsSpace(c: char, t: string)
    requires IsSpace(c)
    ensures SplitWs([c] + t) == SplitWs(t)
  {
    assert ([c] + t)[1..] == t;
  }

  /** The first field of a joined line is split off, and the separator
      after it skipped. */
  lemma SplitWsJoinStep(w: string, rest: seq<string>, c: char, e: char)
    requires IsSpace(c) && w != [] && NoSpace(w) && rest != []
    ensures SplitWs(Join([w] + rest, c) + [e]) == [w] + SplitWs(Join(rest, c) + [e])
  {
    var tail := Join(rest, c) + [e];
    assert ([w] + rest)[1..] == rest;
    assert Join([w] + rest, c) + [e] == w + ([c] + tail);
    SplitWsWord(w, [c] + tail);
    SplitWsSpace(c, tail);
  }

  /** A line of whitespace-free fields separated by one whitespace character
      each and ended by a whitespace character splits back into the fields. */
  lemma {:induction false} SplitWsJoin(fields: seq<string>, c: char, e: char)
    requires IsSpace(c) && IsSpace(e)
    requires forall i :: 0 <= i < |fields| ==> fields[i] != "" && NoSpace(fields[i])
    requires fields != []
    ensures SplitWs(Join(fields, c) + [e]) == fields
    decreases |fields|
  {
    if |fields| == 1 {
      assert Join(fields, c) + [e] == fields[0] + [e];
      SplitWsWord(fields[0], [e]);
      SplitWsSpace(e, []);
      assert [e] + [] == [e];
    } else {
      assert fields == [fields[0]] + fields[1..];
      SplitWsJoinStep(fields[0], fields[1..], c, e);
      SplitWsJoin(fields[1..], c, e);
    }
  }

  /** Text appended to the last piece is appended to the joined string. */
  lemma {:induction false} JoinAppendLast(parts: seq<string>, x: string, y: string, c: char)
    ensures Join(parts + [x + y], c) == Join(parts + [x], c) + y
    decreases |parts|
  {
    if parts != [] {
      assert (parts + [x + y])[1..] == parts[1..] + [x + y];
      assert (parts + [x])[1..] == parts[1..] + [x];
      JoinAppendLast(parts[1..], x, y, c);
    }
  }

  function TrimLeft(s: string): (r: string)
    ensures |r| <= |s| && r == s[|s| - |r|..]
    ensures r == [] || !IsSpace(r[0])
    decreases |s|
  {
    if s != [] && IsSpace(s[0]) then TrimLeft(s[1..]) else s
  }

  function TrimRight(s: string): (r: string)
    ensures |r| <= |s| && r == s[..|r|]
    ensures r == [] || !IsSpace(r[|r| - 1])
    decreases |s|
  {
    if s != [] && IsSpace(s[|s| - 1]) then TrimRight(s[..|s| - 1]) else s
  }

  /** Python's `s.strip()`. */
  function Strip(s: string): string {
    TrimRight(TrimLeft(s))
  }

  /** A string without whitespace at either end is its own `strip()`. */
  lemma StripTrimmed(s: string)
    requires s == [] || (!IsSpace(s[0]) && !IsSpace(s[|s| - 1]))
    ensures Strip(s) == s
  {
  }

  /** Stripping a trailing newline off a string with no whitespace at its
      ends gives the string back. */
  lemma {:induction false} StripNewline(s: string)
    requires s == [] || (!IsSpace(s[0]) && !IsSpace(s[|s| - 1]))
    ensures Strip(s + "\n") == s
  {
    var t := s + "\n";
    assert IsSpace(t[|t| - 1]) && t[..|t| - 1] == s;
    if s == [] {
      assert t[1..] == [];
      assert TrimLeft(t) == TrimLeft([]);
    } else {
      assert t[0] == s[0];
      assert TrimLeft(t) == t;
      assert TrimRight(t) == TrimRight(s);
    }
  }

  /** Python's `s.replace(a, b)` for one-character arguments. */
  function Replace(s: string, a: char, b: char): (r: string)
    ensures |r| == |s|
    ensures forall i :: 0 <= i < |s| ==> r[i] == if s[i] == a then b else s[i]
  {
    seq(|s|, i requires 0 <= i < |s| => if s[i] == a then b else s[i])
  }

  // ---------------------------------------------------------------------
  // str(i) and int(s)

  function DigitChar(d: nat): (c: char)
    requires d < 10
    ensures IsDigit(c) && c as int - '0' as int == d
  {
    ('0' as int + d) as char
  }

  /** Python's `str(n)` for a non-negative integer. */
  function NatToStr(n: nat): (s: string)
    ensures s != [] && forall i :: 0 <= i < |s| ==> IsDigit(s[i])
  {
    if n < 10 then [DigitChar(n)] else NatToStr(n / 10) + [DigitChar(n % 10)]
  }

  /** Python's `str(i)` for an integer. */
  function IntToStr(i: int): string {
    if i < 0 then "-" + NatToStr(-i) else NatToStr(i)
  }

  /** `str(i)` holds no whitespace and is never empty. */
  lemma IntToStrNoSpace(i: int)
    ensures IntToStr(i) != "" && NoSpace(IntToStr(i))
  {
    var s := IntToStr(i);
    forall k | 0 <= k < |s| ensures !IsSpace(s[k]) {
      if i < 0 && k > 0 {
        assert s[k] == NatToStr(-i)[k - 1];
      }
    }
  }

  /** The value of a string of decimal digits, most significant first. */
  function DigitsValue(s: string): nat
    requires forall i :: 0 <= i < |s| ==> IsDigit(s[i])
  {
    if s == [] then 0
    else
      assert IsDigit(s[|s| - 1]);
      10 * DigitsValue(s[..|s| - 1]) + (s[|s| - 1] as int - '0' as int)
  }

  /** The digit strings Python's `int` accepts: digits, possibly grouped by
      single underscores between two digits. */
  predicate DigitGroups(s: string) {
    && s != []
    && (forall i :: 0 <= i < |s| ==> IsDigit(s[i]) || s[i] == '_')
    && IsDigit(s[0]) && IsDigit(s[|s| - 1])
    && (forall i :: 0 <= i < |s| - 1 ==> s[i] != '_' || s[i + 1] != '_')
  }

  function DropUnderscores(s: string): (r: string)
    ensures (forall i :: 0 <= i < |s| ==> IsDigit(s[i]) || s[i] == '_') ==>
              forall i :: 0 <= i < |r| ==> IsDigit(r[i])
  {
    if s == [] then [] else (if s[0] == '_' then [] else [s[0]]) + DropUnderscores(s[1..])
  }

  lemma {:induction false} DropUnderscoresDigits(s: string)
    requires forall i :: 0 <= i < |s| ==> IsDigit(s[i])
    ensures DropUnderscores(s) == s
  {
    if s != [] {
      DropUnderscoresDigits(s[1..]);
      assert s == [s[0]] + s[1..];
    }
  }

  /** `int` of an unsigned digit string. */
  function ParseUnsigned(body: string): Result<nat, ()> {
    if DigitGroups(body) then Ok(DigitsValue(DropUnderscores(body))) else Err(())
  }

  /** Python's `int(s)` on a string without whitespace: an optional sign and a
      digit string; anything else is a `ValueError`, here `Err(())`. */
  function ParseInt(s: string): Result<int, ()> {
    if s != [] && (s[0] == '-' || s[0] == '+') then
      match ParseUnsigned(s[1..])
      case Err(_) => Err(())
      case Ok(v) => Ok(if s[0] == '-' then -(v as int) else v)
    else
      match ParseUnsigned(s)
      case Err(_) => Err(())
      case Ok(v) => Ok(v)
  }

  lemma {:induction false} NatToStrValue(n: nat)
    ensures DigitsValue(NatToStr(n)) == n
  {
    var s := NatToStr(n);
    if n >= 10 {
      NatToStrValue(n / 10);
      assert s[..|s| - 1] == NatToStr(n / 10);
    }
  }

  lemma DigitsAreGroups(s: string)
    requires s != [] && forall i :: 0 <= i < |s| ==> IsDigit(s[i])
    ensures DigitGroups(s)
  {
  }

  /** An unsigned digit string reads as its value. */
  lemma ParseDigits(digits: string)
    requires digits != [] && forall i :: 0 <= i < |digits| ==> IsDigit(digits[i])
    ensures ParseUnsigned(digits) == Ok(DigitsValue(digits))
  {
    DropUnderscoresDigits(digits);
    DigitsAreGroups(digits);
  }

  /** `int(str(i)) == i`. */
  lemma ParseIntToStr(i: int)
    ensures ParseInt(IntToStr(i)) == Ok(i)
  {
    if i < 0 {
      ParseNegative(-i);
      assert IntToStr(i) == "-" + NatToStr(-i);
    } else {
      ParseNonNegative(i);
      assert IntToStr(i) == NatToStr(i);
    }
  }

  lemma ParseNegative(n: nat)
    ensures ParseInt("-" + NatToStr(n)) == Ok(-(n as int))
  {
    var digits := NatToStr(n);
    var s := "-" + digits;
    NatToStrValue(n);
    ParseDigits(digits);
    assert s[0] == '-' && s[1..] == digits;
  }

  lemma ParseNonNegative(n: nat)
    ensures ParseInt(NatToStr(n)) == Ok(n)
  {
    var digits := NatToStr(n);
    NatToStrValue(n);
    ParseDigits(digits);
    assert IsDigit(digits[0]);
  }

  // ---------------------------------------------------------------------
  // The order `sorted` uses on strings, and a sort

  /** Lexicographic order on code points, the order of Python's `<=` on `str`. */
  predicate StrLe(a: string, b: string)
    decreases |a|
  {
    a == [] || (b != [] && (a[0] < b[0] || (a[0] == b[0] && StrLe(a[1..], b[1..]))))
  }

  lemma {:induction false} StrLeRefl(a: string)
    ensures StrLe(a, a)
    decreases |a|
  {
    if a != [] {
      StrLeRefl(a[1..]);
    }
  }

  lemma {:induction false} StrLeTotal(a: string, b: string)
    ensures StrLe(a, b) || StrLe(b, a)
    decreases |a|
  {
    if a != [] && b != [] && a[0] == b[0] {
      StrLeTotal(a[1..], b[1..]);
    }
  }

  lemma {:induction false} StrLeTrans(a: string, b: string, c: string)
    requires StrLe(a, b) && StrLe(b, c)
    ensures StrLe(a, c)
    decreases |a|
  {
    if a != [] && a[0] == b[0] && b[0] == c[0] {
      StrLeTrans(a[1..], b[1..], c[1..]);
    }
  }

  lemma {:induction false} StrLeAntisymmetric(a: string, b: string)
    requires StrLe(a, b) && StrLe(b, a)
    ensures a == b
    decreases |a|
  {
    if a != [] {
      StrLeAntisymmetric(a[1..], b[1..]);
      assert a == [a[0]] + a[1..] && b == [b[0]] + b[1..];
    }
  }

  predicate Sorted(s: seq<string>) {
    forall i, j :: 0 <= i < j < |s| ==> StrLe(s[i], s[j])
  }

  /** Inserts `x` into a sorted sequence before the first element it is at
      most. */
  function Insert(x: string, s: seq<string>): (r: seq<string>)
    requires Sorted(s)
    ensures Sorted(r)
    ensures multiset(r) == multiset(s) + multiset{x}
    decreases |s|
  {
    if s == [] then [x]
    else if StrLe(x, s[0]) then
      InsertFront(x, s);
      [x] + s
    else
      StrLeTotal(x, s[0]);
      var t := Insert(x, s[1..]);
      assert s == [s[0]] + s[1..];
      InsertBehind(s[0], x, s[1..], t);
      [s[0]] + t
  }

  lemma InsertFront(x: string, s: seq<string>)
    requires Sorted(s) && s != [] && StrLe(x, s[0])
    ensures Sorted([x] + s)
  {
    forall j | 0 <= j < |s| ensures StrLe(x, s[j]) {
      if j > 0 { StrLeTrans(x, s[0], s[j]); }
    }
  }

  lemma InsertBehind(h: string, x: string, s: seq<string>, t: seq<string>)
    requires Sorted([h] + s) && StrLe(h, x)
    requires Sorted(t) && multiset(t) == multiset(s) + multiset{x}
    ensures Sorted([h] + t)
  {
    forall j | 0 <= j < |t| ensures StrLe(h, t[j]) {
      assert t[j] in multiset(t);
      if t[j] != x {
        assert t[j] in multiset(s);
        var k :| 0 <= k < |s| && s[k] == t[j];
        assert ([h] + s)[0] == h && ([h] + s)[k + 1] == s[k];
      }
    }
  }

  /** Insertion sort: a sorted permutation of `s`. */
  function Sort(s: seq<string>): (r: seq<string>)
    ensures Sorted(r)
    ensures multiset(r) == multiset(s)
    ensures |r| == |s|
  {
    if s == [] then []
    else
      assert s == [s[0]] + s[1..];
      Insert(s[0], Sort(s[1..]))
  }

  lemma SortedHead(s: seq<string>, k: nat)
    requires Sorted(s) && k < |s|
    ensures StrLe(s[0], s[k])
  {
    if k == 0 { StrLeRefl(s[0]); }
  }

  lemma SortedTail(s: seq<string>)
    requires Sorted(s) && s != []
    ensures Sorted(s[1..])
  {
    forall i, j | 0 <= i < j < |s| - 1 ensures StrLe(s[1..][i], s[1..][j]) {
      assert s[1..][i] == s[i + 1] && s[1..][j] == s[j + 1];
    }
  }

  lemma HeadsAgree(a: seq<string>, b: seq<string>)
    requires Sorted(a) && Sorted(b) && multiset(a) == multiset(b) && a != []
    ensures b != [] && a[0] == b[0]
  {
    assert a[0] in multiset(b);
    var k :| 0 <= k < |b| && b[k] == a[0];
    assert b[0] in multiset(a);
    var m :| 0 <= m < |a| && a[m] == b[0];
    SortedHead(b, k);
    SortedHead(a, m);
    StrLeAntisymmetric(a[0], b[0]);
  }

  lemma TailsAgree(a: seq<string>, b: seq<string>)
    requires multiset(a) == multiset(b) && a != [] && b != [] && a[0] == b[0]
    ensures multiset(a[1..]) == multiset(b[1..])
  {
    assert a == [a[0]] + a[1..] && b == [b[0]] + b[1..];
    assert multiset(a[1..]) == multiset(a) - multiset{a[0]};
    assert multiset(b[1..]) == multiset(b) - multiset{b[0]};
  }

  /** Any two sorted permutations of one multiset agree, so `Sort` gives what
      any correct sort (Python's `sorted` among them) gives. */
  lemma {:induction false} SortedUnique(a: seq<string>, b: seq<string>)
    requires Sorted(a) && Sorted(b) && multiset(a) == multiset(b)
    ensures a == b
    decreases |a|
  {
    if a == [] {
      assert |b| == |multiset(b)| == 0;
    } else {
      HeadsAgree(a, b);
      TailsAgree(a, b);
      SortedTail(a);
      SortedTail(b);
      SortedUnique(a[1..], b[1..]);
      assert a == [a[0]] + a[1..] && b == [b[0]] + b[1..];
    }
  }

  // ---------------------------------------------------------------------
  // Text files

  /** `'\n'`, `'\r'` and `'\t'` are whitespace, so a string without
      whitespace holds none of them. */
  lemma NoSpaceBreaks(s: string)
    requires NoSpace(s)
    ensures '\n' !in s && '\r' !in s && '\t' !in s
  {
    assert IsSpace('\n') && IsSpace('\r') && IsSpace('\t');
  }

  /** A character that is not the separator and is in none of the parts
      is not in their join. */
  lemma {:induction false} JoinFree(parts: seq<string>, c: char, x: char)
    requires x != c && forall i :: 0 <= i < |parts| ==> x !in parts[i]
    ensures x !in Join(parts, c)
    decreases |parts|
  {
    if |parts| > 1 {
      JoinFree(parts[1..], c, x);
    }
  }

  /** The text of a file to which the strings of `ss` are written in order. */
  function Concat(ss: seq<string>): string
    decreases |ss|
  {
    if ss == [] then "" else ss[0] + Concat(ss[1..])
  }

  /** The universal-newline translation of a file read in text mode:
      `"\r\n"` and a lone `'\r'` each become `'\n'`. */
  function Translate(s: string): string
    decreases |s|
  {
    if s == [] then ""
    else if s[0] == '\r' then "\n" + Translate(if |s| > 1 && s[1] == '\n' then s[2..] else s[1..])
    else [s[0]] + Translate(s[1..])
  }

  /** The lines iterating over a text yields: each runs up to and
      including a `'\n'`, and a last one without `'\n'` holds the rest. */
  function SplitLines(s: string): seq<string>
    decreases |s|
  {
    if s == [] then []
    else
      var rest := SplitLines(s[1..]);
      if s[0] == '\n' then ["\n"] + rest
      else if rest == [] then [[s[0]]]
      else [[s[0]] + rest[0]] + rest[1..]
  }

  /** The lines a text-mode read of a file holding `text` yields. */
  function FileLines(text: string): seq<string> {
    SplitLines(Translate(text))
  }

  /** A string written as exactly one line: it ends in its only `'\n'`
      and holds no `'\r'`. */
  predicate OneLine(s: string) {
    |s| > 0 && s[|s| - 1] == '\n' && '\n' !in s[..|s| - 1] && '\r' !in s
  }

  /** The lines of a text put back together give the text. */
  lemma {:induction false} SplitLinesConcat(s: string)
    ensures Concat(SplitLines(s)) == s
    decreases |s|
  {
    if s != [] {
      SplitLinesConcat(s[1..]);
      var rest := SplitLines(s[1..]);
      if s[0] != '\n' && rest != [] {
        assert Concat(rest) == rest[0] + Concat(rest[1..]);
        assert Concat([[s[0]] + rest[0]] + rest[1..]) == [s[0]] + rest[0] + Concat(rest[1..]);
      }
      assert s == [s[0]] + s[1..];
    }
  }

  /** A text without `'\r'` is left as it is by the translation. */
  lemma {:induction false} TranslateFree(s: string)
    requires '\r' !in s
    ensures Translate(s) == s
    decreases |s|
  {
    if s != [] {
      assert '\r' !in s[1..];
      TranslateFree(s[1..]);
      assert s == [s[0]] + s[1..];
    }
  }

  /** A `'\n'`-free start followed by a `'\n'` is the first line. */
  lemma {:induction false} SplitLinesLine(body: string, t: string)
    requires '\n' !in body
    ensures SplitLines(body + "\n" + t) == [body + "\n"] + SplitLines(t)
    decreases |body|
  {
    var s := body + "\n" + t;
    if body == [] {
      assert s == "\n" + t && s[1..] == t;
    } else {
      assert s[1..] == body[1..] + "\n" + t;
      SplitLinesLine(body[1..], t);
      assert [s[0]] + (body[1..] + "\n") == body + "\n";
    }
  }

  /** Text written one line per string splits back into those strings. */
  lemma {:induction false} SplitLinesOfConcat(ss: seq<string>)
    requires forall e :: e in ss ==> OneLine(e)
    ensures SplitLines(Concat(ss)) == ss
    decreases |ss|
  {
    if ss != [] {
      var e := ss[0];
      assert OneLine(e);
      var body := e[..|e| - 1];
      assert e == body + "\n";
      assert forall x :: x in ss[1..] ==> x in ss;
      SplitLinesOfConcat(ss[1..]);
      SplitLinesLine(body, Concat(ss[1..]));
      assert Concat(ss) == body + "\n" + Concat(ss[1..]);
      assert ss == [e] + ss[1..];
    }
  }

  /** Text written with no `'\r'` anywhere reads back unchanged. */
  lemma {:induction false} ConcatFree(ss: seq<string>)
    requires forall e :: e in ss ==> OneLine(e)
    ensures '\r' !in Concat(ss)
    decreases |ss|
  {
    if ss != [] {
      assert OneLine(ss[0]);
      assert forall x :: x in ss[1..] ==> x in ss;
      ConcatFree(ss[1..]);
    }
  }

  /** Writing strings that are one line each and reading the file back in
      text mode yields exactly those strings. */
  lemma FileLinesOfConcat(ss: seq<string>)
    requires forall e :: e in ss ==> OneLine(e)
    ensures FileLines(Concat(ss)) == ss
  {
    ConcatFree(ss);
    TranslateFree(Concat(ss));
    SplitLinesOfConcat(ss);
  }
}
