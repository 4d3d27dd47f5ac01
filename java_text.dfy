/**
  The parts of java.lang that both codecs rely on, stated over UTF-16 code units:
  String.trim, Integer.toString for non-negative values, Integer.parseInt,
  String.split with a literal separator, the (char) narrowing cast and int division.
  The result type that replaces the codecs' sentinel strings, error strings and null
  also lives here.
*/
module JavaText {

  /** A Java `char`: one UTF-16 code unit. */
  type CodeUnit = u: int | 0 <= u < 0x1_0000

  /** A Java `String`, as its sequence of code units. */
  type Text = seq<CodeUnit>

  const MinInt: int := -0x8000_0000
  const MaxInt: int := 0x7FFF_FFFF

  const Space: CodeUnit := 0x20  // ' '
  const Zero: CodeUnit := 0x30   // '0'
  const Plus: CodeUnit := 0x2B   // '+'
  const Minus: CodeUnit := 0x2D  // '-'

  datatype Option<T> = None | Some(value: T)

  /**
    Why an operation produced no text: an exception caught by the try-block of
    "Block 1" or "Block 2" (the "ERRBL1~" and "ERRBL2~" strings, without the exception
    text that follows them), or a result variable that was left null.
  */
  datatype Failure = Block1 | Block2 | Null

  /** What a public encode or decode operation hands back. */
  datatype Outcome = Ok(text: Text) | Sentinel | Err(failure: Failure)

  predicate IsDigit(u: int) {
    Zero <= u <= Zero + 9
  }

  predicate AllDigits(t: Text) {
    forall i :: 0 <= i < |t| ==> IsDigit(t[i])
  }

  /** A non-empty run of ASCII decimal digits. */
  predicate IsNumeral(t: Text) {
    |t| > 0 && AllDigits(t)
  }

  predicate Within(t: Text, allowed: set<CodeUnit>) {
    forall i :: 0 <= i < |t| ==> t[i] in allowed
  }

  // ---------------------------------------------------------------------------
  // String.trim

  /** Every code unit is at or below U+0020: what `trim()` reduces to the empty string. */
  predicate IsBlank(s: Text) {
    forall i :: 0 <= i < |s| ==> s[i] <= Space
  }

  /** The number of leading code units at or below U+0020: all of them lie below it, and the unit at it, if any, is above U+0020. */
  function Lead(s: Text): (n: nat)
    ensures n <= |s|
    ensures forall k :: 0 <= k < n ==> s[k] <= Space
    ensures n == |s| || s[n] > Space
  {
    if s != [] && s[0] <= Space then
      var m := Lead(s[1..]);
      assert forall k :: 1 <= k < 1 + m ==> s[k] == s[1..][k - 1];
      1 + m
    else 0
  }

  /** `s` without its leading code units at or below U+0020. */
  function TrimStart(s: Text): (r: Text)
    ensures r == [] || r[0] > Space
  {
    if s != [] && s[0] <= Space then TrimStart(s[1..]) else s
  }

  /** `s` without its trailing code units at or below U+0020. */
  function TrimEnd(s: Text): (r: Text)
    ensures r == [] || r[|r| - 1] > Space
  {
    if s != [] && s[|s| - 1] <= Space then TrimEnd(s[..|s| - 1]) else s
  }

  /** `String.trim()`: drops the leading and the trailing code units at or below U+0020; what is left is empty or starts and ends above U+0020. */
  function Trim(s: Text): (r: Text)
    ensures r == [] || (r[0] > Space && r[|r| - 1] > Space)
  {
    TrimEndSlice(TrimStart(s));
    TrimEnd(TrimStart(s))
  }

  lemma {:induction false} TrimStartSlice(s: Text)
    ensures TrimStart(s) == s[Lead(s)..]
  {
    if s != [] && s[0] <= Space {
      TrimStartSlice(s[1..]);
    }
  }

  lemma {:induction false} TrimEndSlice(s: Text)
    ensures |TrimEnd(s)| <= |s| && TrimEnd(s) == s[..|TrimEnd(s)|]
    ensures forall k :: |TrimEnd(s)| <= k < |s| ==> s[k] <= Space
  {
    if s != [] && s[|s| - 1] <= Space {
      var p := s[..|s| - 1];
      TrimEndSlice(p);
      assert forall k :: |TrimEnd(p)| <= k < |p| ==> s[k] == p[k];
    }
  }

  /**
    `trim()` keeps exactly the slice of `s` that starts after its leading code units at
    or below U+0020 and leaves out its trailing ones.
  */
  lemma TrimSlice(s: Text)
    ensures var r := Trim(s);
      Lead(s) + |r| <= |s| && r == s[Lead(s)..Lead(s) + |r|] &&
      forall k :: Lead(s) + |r| <= k < |s| ==> s[k] <= Space
  {
    TrimStartSlice(s);
    TrimEndSlice(TrimStart(s));
    BlankTailOfSuffix(s, TrimStart(s), Trim(s), Lead(s));
  }

  /** A prefix r of the suffix of s from n, followed in it only by blanks, is the slice of s from n, followed in s only by blanks. */
  lemma BlankTailOfSuffix(s: Text, t: Text, r: Text, n: nat)
    requires n <= |s| && t == s[n..]
    requires |r| <= |t| && r == t[..|r|] && forall k :: |r| <= k < |t| ==> t[k] <= Space
    ensures n + |r| <= |s| && r == s[n..n + |r|] && forall k :: n + |r| <= k < |s| ==> s[k] <= Space
  {
    forall k | n + |r| <= k < |s| ensures s[k] <= Space {
      assert s[k] == t[k - n];
    }
  }

  lemma {:induction false} TrimStartEmptyIffBlank(s: Text)
    ensures TrimStart(s) == [] <==> IsBlank(s)
  {
    if s != [] && s[0] <= Space {
      TrimStartEmptyIffBlank(s[1..]);
      assert IsBlank(s) <==> IsBlank(s[1..]) by {
        if IsBlank(s[1..]) {
          forall i | 0 <= i < |s| ensures s[i] <= Space {
            if i > 0 { assert s[i] == s[1..][i - 1]; }
          }
        }
      }
    }
  }

  lemma {:induction false} TrimEndEmptyIffBlank(s: Text)
    ensures TrimEnd(s) == [] <==> IsBlank(s)
  {
    if s != [] && s[|s| - 1] <= Space {
      TrimEndEmptyIffBlank(s[..|s| - 1]);
      assert IsBlank(s) <==> IsBlank(s[..|s| - 1]) by {
        if IsBlank(s[..|s| - 1]) {
          forall i | 0 <= i < |s| ensures s[i] <= Space {
            if i < |s| - 1 { assert s[i] == s[..|s| - 1][i]; }
          }
        }
      }
    }
  }

  /** `trim().isEmpty()` holds exactly when every code unit is at or below U+0020, the empty string included. */
  lemma TrimEmptyIffBlank(s: Text)
    ensures Trim(s) == [] <==> IsBlank(s)
  {
    var t := TrimStart(s);
    TrimStartEmptyIffBlank(s);
    TrimEndEmptyIffBlank(t);
    assert IsBlank(t) <==> t == [];
  }

  // ---------------------------------------------------------------------------
  // Integer.toString and Integer.parseInt

  /** `Integer.toString(n)` (and `StringBuilder.append(int)`) for a non-negative n. */
  function Decimal(n: nat): (r: Text)
    ensures IsNumeral(r)
    ensures r[|r| - 1] == Zero + n % 10
    ensures |r| == 1 <==> n < 10
  {
    if n < 10 then [Zero + n] else Decimal(n / 10) + [Zero + n % 10]
  }

  /** The value of a run of ASCII digits, most significant first. */
  function NumeralValue(t: Text): nat
    requires AllDigits(t)
  {
    if t == [] then 0 else NumeralValue(t[..|t| - 1]) * 10 + (t[|t| - 1] - Zero)
  }

  /** `Integer.parseInt`: an optional sign then at least one ASCII digit, within int range. */
  function ParseInt(t: Text): (r: Option<int>)
    ensures r.Some? ==> MinInt <= r.value <= MaxInt
  {
    if |t| > 0 && (t[0] == Minus || t[0] == Plus) then
      var digits := t[1..];
      if IsNumeral(digits) then
        var v: int := if t[0] == Minus then -(NumeralValue(digits) as int) else NumeralValue(digits);
        if MinInt <= v <= MaxInt then Some(v) else None
      else None
    else if IsNumeral(t) && NumeralValue(t) <= MaxInt then Some(NumeralValue(t))
    else None
  }

  lemma {:induction false} NumeralValueOfDecimal(n: nat)
    ensures NumeralValue(Decimal(n)) == n
  {
    if n >= 10 {
      var r := Decimal(n);
      assert r[..|r| - 1] == Decimal(n / 10);
      NumeralValueOfDecimal(n / 10);
    }
  }

  /** `Integer.parseInt(Integer.toString(n)) == n` for every non-negative int. */
  lemma ParseDecimal(n: nat)
    requires n <= MaxInt
    ensures ParseInt(Decimal(n)) == Some(n)
  {
    NumeralValueOfDecimal(n);
  }

  /** A one-unit string parses exactly when the unit is an ASCII digit, to that digit's value. */
  lemma ParseOneUnit(u: CodeUnit)
    ensures ParseInt([u]).Some? <==> IsDigit(u)
    ensures IsDigit(u) ==> ParseInt([u]) == Some(u - Zero)
  {
    assert [u][1..] == [];
    assert [u][..0] == [];
    if IsDigit(u) {
      assert NumeralValue([u]) == u - Zero;
    } else {
      assert [u][0] == u;
      assert !IsNumeral([u]);
    }
  }

  // ---------------------------------------------------------------------------
  // The (char) cast and int division

  /** `(char) v`: keeps the low 16 bits of v, which is v modulo 2^16 for negative v as well. */
  function ToUnit(v: int): (u: CodeUnit)
    ensures 0 <= v < 0x1_0000 ==> u == v
  {
    v % 0x1_0000
  }

  /** Java `a / b` on int: rounds toward zero; MIN_VALUE / -1, the one quotient outside int, wraps to MIN_VALUE. */
  function IntDiv(a: int, b: int): (q: int)
    requires b != 0
    ensures 0 <= a && b > 0 ==> q == a / b
  {
    if a == MinInt && b == -1 then MinInt
    else
      var m := (if a < 0 then -a else a) / (if b < 0 then -b else b);
      if (a < 0) == (b < 0) then m else -m
  }

  // ---------------------------------------------------------------------------
  // String.split and its inverse

  /** `ps` with `sep` between consecutive pieces. */
  function Join(ps: seq<Text>, sep: Text): Text
    decreases |ps|
  {
    if |ps| == 0 then [] else if |ps| == 1 then ps[0] else ps[0] + sep + Join(ps[1..], sep)
  }

  /** The pieces of `t` between non-overlapping occurrences of `sep`, found from the left; empty pieces kept. */
  function Pieces(t: Text, sep: Text): (r: seq<Text>)
    requires |sep| > 0
    ensures |r| >= 1
    decreases |t|
  {
    if |t| < |sep| then [t]
    else if t[..|sep|] == sep then [[]] + Pieces(t[|sep|..], sep)
    else
      var rest := Pieces(t[1..], sep);
      [[t[0]] + rest[0]] + rest[1..]
  }

  /** The pieces joined by the separator give the text back. */
  lemma {:induction false} PiecesRejoin(t: Text, sep: Text)
    requires |sep| > 0
    ensures Join(Pieces(t, sep), sep) == t
    decreases |t|
  {
    if |t| < |sep| {
    } else if t[..|sep|] == sep {
      var rest := Pieces(t[|sep|..], sep);
      PiecesRejoin(t[|sep|..], sep);
      assert ([[]] + rest)[1..] == rest;
      assert Join([[]] + rest, sep) == [] + sep + Join(rest, sep);
      assert t == sep + t[|sep|..];
    } else {
      var rest := Pieces(t[1..], sep);
      PiecesRejoin(t[1..], sep);
      JoinConsHead(t[0], rest[0], rest[1..], sep);
      assert [rest[0]] + rest[1..] == rest;
      assert Join([[t[0]] + rest[0]] + rest[1..], sep) == [t[0]] + t[1..];
      assert t == [t[0]] + t[1..];
    }
  }

  /** With a one-unit separator no piece holds it. */
  lemma {:induction false} PiecesFree(t: Text, u: CodeUnit)
    ensures forall k :: 0 <= k < |Pieces(t, [u])| ==> u !in Pieces(t, [u])[k]
    decreases |t|
  {
    if |t| < 1 {
    } else if t[..1] == [u] {
      PiecesFree(t[1..], u);
    } else {
      assert t[0] != u by { assert t[..1] == [t[0]]; }
      PiecesFree(t[1..], u);
    }
  }

  /** Putting one more unit in front of the first piece puts it in front of the joined text. */
  lemma JoinConsHead(u: CodeUnit, p: Text, q: seq<Text>, sep: Text)
    ensures Join([[u] + p] + q, sep) == [u] + Join([p] + q, sep)
  {
    assert ([[u] + p] + q)[1..] == q;
    assert ([p] + q)[1..] == q;
  }

  /** `ps` without its trailing empty pieces: empty, or ending in a non-empty piece. */
  function DropTrailingEmpty(ps: seq<Text>): (r: seq<Text>)
    ensures r == [] || r[|r| - 1] != []
  {
    if ps != [] && ps[|ps| - 1] == [] then DropTrailingEmpty(ps[..|ps| - 1]) else ps
  }

  /** Dropping the trailing empty pieces keeps a prefix, and only empty pieces follow it. */
  lemma {:induction false} DropTrailingEmptyPrefix(ps: seq<Text>)
    ensures var r := DropTrailingEmpty(ps);
      |r| <= |ps| && r == ps[..|r|] && forall k :: |r| <= k < |ps| ==> ps[k] == []
  {
    if ps != [] && ps[|ps| - 1] == [] {
      var p := ps[..|ps| - 1];
      DropTrailingEmptyPrefix(p);
      var r := DropTrailingEmpty(p);
      assert r == ps[..|r|];
      assert forall k :: |r| <= k < |p| ==> ps[k] == p[k];
    }
  }

  /**
    `t.split(sep)` for a separator with no regular-expression metacharacter: `[t]` when
    `sep` does not occur in `t`, otherwise the pieces without their trailing empty ones,
    so that only a single piece can be empty at the end.
  */
  function Split(t: Text, sep: Text): (r: seq<Text>)
    requires |sep| > 0
    ensures |r| <= 1 || r[|r| - 1] != []
  {
    var ps := Pieces(t, sep);
    if |ps| == 1 then ps else DropTrailingEmpty(ps)
  }

  /**
    What `split` keeps: a prefix of the pieces, which rejoin to `t`, with only empty
    pieces left off; with a one-unit separator no kept piece holds it, and a text
    without it is a single piece.
  */
  lemma SplitMeaning(t: Text, sep: Text)
    requires |sep| > 0
    ensures var r, ps := Split(t, sep), Pieces(t, sep);
      Join(ps, sep) == t && |r| <= |ps| && r == ps[..|r|] &&
      (forall k :: |r| <= k < |ps| ==> ps[k] == []) &&
      (|sep| == 1 ==> forall k :: 0 <= k < |r| ==> sep[0] !in r[k]) &&
      (|sep| == 1 && sep[0] !in t ==> r == [t])
  {
    var ps := Pieces(t, sep);
    PiecesRejoin(t, sep);
    if |sep| == 1 {
      assert [sep[0]] == sep;
      PiecesFree(t, sep[0]);
    }
    DropTrailingEmptyPrefix(ps);
    var r := Split(t, sep);
    assert forall k :: 0 <= k < |r| ==> r[k] == ps[k];
    if |sep| == 1 && sep[0] !in t {
      assert [sep[0]] == sep;
      PiecesWhole(t, sep[0]);
    }
  }

  /** Joining one more piece appends the separator and that piece. */
  lemma {:induction false} JoinSnoc(ps: seq<Text>, p: Text, sep: Text)
    requires |ps| >= 1
    ensures Join(ps + [p], sep) == Join(ps, sep) + sep + p
  {
    if |ps| == 1 {
      assert (ps + [p])[1..] == [p];
    } else {
      assert (ps + [p])[1..] == ps[1..] + [p];
      JoinSnoc(ps[1..], p, sep);
    }
  }

  /** A joined text is made only of units that occur in the pieces or in the separator. */
  lemma {:induction false} JoinWithin(ps: seq<Text>, sep: Text, allowed: set<CodeUnit>)
    requires forall i :: 0 <= i < |ps| ==> Within(ps[i], allowed)
    requires Within(sep, allowed)
    ensures Within(Join(ps, sep), allowed)
  {
    if |ps| > 1 {
      JoinWithin(ps[1..], sep, allowed);
      assert Within(ps[0] + sep, allowed);
    }
  }

  /** With a one-unit separator absent from the pieces, it occurs in the joined text once between each two pieces. */
  lemma {:induction false} JoinCount(ps: seq<Text>, u: CodeUnit)
    requires |ps| >= 1
    requires forall i :: 0 <= i < |ps| ==> u !in ps[i]
    ensures multiset(Join(ps, [u]))[u] == |ps| - 1
  {
    assert u !in ps[0];
    assert multiset(ps[0])[u] == 0;
    if |ps| > 1 {
      JoinCount(ps[1..], u);
      assert Join(ps, [u]) == ps[0] + [u] + Join(ps[1..], [u]);
    }
  }

  /** A joined text starts with the first unit of its first piece and ends with the last unit of its last piece. */
  lemma JoinEnds(ps: seq<Text>, sep: Text)
    requires |ps| >= 1 && ps[0] != [] && ps[|ps| - 1] != []
    ensures Join(ps, sep) != []
    ensures Join(ps, sep)[0] == ps[0][0]
    ensures Join(ps, sep)[|Join(ps, sep)| - 1] == ps[|ps| - 1][|ps[|ps| - 1]| - 1]
  {
    if |ps| > 1 {
      var n := |ps| - 1;
      assert ps == ps[..n] + [ps[n]];
      JoinSnoc(ps[..n], ps[n], sep);
    }
  }

  /** A piece free of the one-unit separator is cut off at the first separator. */
  lemma {:induction false} PiecesAfter(p: Text, u: CodeUnit, rest: Text)
    requires u !in p
    ensures Pieces(p + [u] + rest, [u]) == [p] + Pieces(rest, [u])
    decreases |p|
  {
    var t := p + [u] + rest;
    if p == [] {
      assert t[..1] == [u];
      assert t[1..] == rest;
    } else {
      assert t[..1] != [u] by { assert t[0] == p[0] != u; }
      assert t[1..] == p[1..] + [u] + rest;
      PiecesAfter(p[1..], u, rest);
      assert [t[0]] + p[1..] == p;
    }
  }

  /** A text free of the one-unit separator is a single piece. */
  lemma {:induction false} PiecesWhole(p: Text, u: CodeUnit)
    requires u !in p
    ensures Pieces(p, [u]) == [p]
    decreases |p|
  {
    if p != [] {
      assert p[..1] != [u] by { assert p[0] != u; }
      PiecesWhole(p[1..], u);
      assert [p[0]] + p[1..] == p;
    }
  }

  /** Splitting on a one-unit separator undoes joining on it, when no piece holds it and the last is non-empty. */
  lemma {:induction false} SplitJoin(ps: seq<Text>, u: CodeUnit)
    requires |ps| >= 1 && ps[|ps| - 1] != []
    requires forall i :: 0 <= i < |ps| ==> u !in ps[i]
    ensures Split(Join(ps, [u]), [u]) == ps
  {
    PiecesJoin(ps, u);
  }

  lemma {:induction false} PiecesJoin(ps: seq<Text>, u: CodeUnit)
    requires |ps| >= 1
    requires forall i :: 0 <= i < |ps| ==> u !in ps[i]
    ensures Pieces(Join(ps, [u]), [u]) == ps
  {
    if |ps| == 1 {
      PiecesWhole(ps[0], u);
    } else {
      PiecesAfter(ps[0], u, Join(ps[1..], [u]));
      PiecesJoin(ps[1..], u);
    }
  }
}
