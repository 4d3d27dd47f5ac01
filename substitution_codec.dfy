/**
  The substitution codec (RTEncryptionV3). Encoding writes the decimal code of every
  character, joined by the separator U+026F, and then swaps each digit and each
  separator for a letter through the fixed table `hm`. Decoding swaps the letters back,
  splits on the separator and turns every numeral into a character again.
*/
module SubstitutionCodec {
  import opened JavaText

  /** `separator`: U+026F, Latin small letter turned m. */
  const Sep: CodeUnit := 'ɯ' as CodeUnit

  const R: CodeUnit := 'R' as CodeUnit
  const A: CodeUnit := 'A' as CodeUnit

  /** The table `hm`: '0'..'9' to 'A'..'J', and the separator to 'R'. */
  const Table: map<CodeUnit, CodeUnit> := map[
    '0' as CodeUnit := 'A' as CodeUnit,
    '1' as CodeUnit := 'B' as CodeUnit,
    '2' as CodeUnit := 'C' as CodeUnit,
    '3' as CodeUnit := 'D' as CodeUnit,
    '4' as CodeUnit := 'E' as CodeUnit,
    '5' as CodeUnit := 'F' as CodeUnit,
    '6' as CodeUnit := 'G' as CodeUnit,
    '7' as CodeUnit := 'H' as CodeUnit,
    '8' as CodeUnit := 'I' as CodeUnit,
    '9' as CodeUnit := 'J' as CodeUnit,
    Sep := R]

  /** The inverse of `hm`, which `deconverter` rebuilds as `rev` on every call. */
  const Reverse: map<CodeUnit, CodeUnit> := map[
    'A' as CodeUnit := '0' as CodeUnit,
    'B' as CodeUnit := '1' as CodeUnit,
    'C' as CodeUnit := '2' as CodeUnit,
    'D' as CodeUnit := '3' as CodeUnit,
    'E' as CodeUnit := '4' as CodeUnit,
    'F' as CodeUnit := '5' as CodeUnit,
    'G' as CodeUnit := '6' as CodeUnit,
    'H' as CodeUnit := '7' as CodeUnit,
    'I' as CodeUnit := '8' as CodeUnit,
    'J' as CodeUnit := '9' as CodeUnit,
    R := Sep]

  /** The images of the table: the letters 'A'..'J' and 'R'. */
  predicate IsCodeLetter(u: int) {
    A <= u <= A + 9 || u == R
  }

  /** What a serialized code sequence is made of: ASCII digits and the separator. */
  const DigitsAndSep: set<CodeUnit> := (set d: CodeUnit | Zero <= d <= Zero + 9) + {Sep}

  // ---------------------------------------------------------------------------
  // The table and its inverse

  /** `rev` is the inverse of `m`: its keys are the images of `m`, and it maps each image back to its key. */
  predicate IsInverse(rev: map<CodeUnit, CodeUnit>, m: map<CodeUnit, CodeUnit>) {
    rev.Keys == m.Values && forall k :: k in m ==> m[k] in rev && rev[m[k]] == k
  }

  /** `hm` has exactly the ten digits and the separator as keys, and no two keys share an image. */
  lemma TableInjective()
    ensures Table.Keys == DigitsAndSep
    ensures forall k1, k2 :: k1 in Table && k2 in Table && Table[k1] == Table[k2] ==> k1 == k2
  {
    assert forall d: CodeUnit :: Zero <= d <= Zero + 9 ==> d in Table by {
      forall d: CodeUnit | Zero <= d <= Zero + 9 ensures d in Table {
        assert d == Zero + (d - Zero);
      }
    }
  }

  /** The inverse `deconverter` relies on is exact: `Reverse` undoes `hm` and nothing else. */
  lemma ReverseInvertsTable()
    ensures IsInverse(Reverse, Table)
  {
    forall k | k in Table ensures Table[k] in Reverse && Reverse[Table[k]] == k {
      ReverseUndoesKey(k);
    }
    forall v | v in Reverse ensures v in Table.Values {
      ReverseIsImage(v);
    }
  }

  /** Each key of `hm` is sent back to itself by `Reverse`. */
  lemma ReverseUndoesKey(k: CodeUnit)
    requires k in Table
    ensures Table[k] in Reverse && Reverse[Table[k]] == k
  {
    TableInjective();
    assert k in DigitsAndSep;
    assert k == Sep || k == Zero || k == Zero + 1 || k == Zero + 2 || k == Zero + 3 || k == Zero + 4 ||
      k == Zero + 5 || k == Zero + 6 || k == Zero + 7 || k == Zero + 8 || k == Zero + 9;
  }

  /** Each key of `Reverse` is an image of `hm`, namely of the unit `Reverse` sends it to. */
  lemma ReverseIsImage(v: CodeUnit)
    requires v in Reverse
    ensures Reverse[v] in Table && Table[Reverse[v]] == v
  {
    assert v == R || v == A || v == A + 1 || v == A + 2 || v == A + 3 || v == A + 4 ||
      v == A + 5 || v == A + 6 || v == A + 7 || v == A + 8 || v == A + 9;
  }

  /** Since `hm` is injective, any map that inverts it is `Reverse`: the order `rev` is filled in does not matter. */
  lemma InverseIsUnique(rev: map<CodeUnit, CodeUnit>)
    requires IsInverse(rev, Table)
    ensures rev == Reverse
  {
    ReverseInvertsTable();
    forall v | v in rev ensures rev[v] == Reverse[v] {
      var k :| k in Table && Table[k] == v;
    }
  }

  /** What `converter` does to one unit: a key of `hm` becomes its image, anything else stays. */
  function SubstituteUnit(u: CodeUnit): (r: CodeUnit)
    ensures IsDigit(u) ==> r == u - Zero + A
    ensures u == Sep ==> r == R
    ensures !IsDigit(u) && u != Sep ==> r == u
  {
    TableInjective();
    if u in Table then Table[u] else u
  }

  /** What `deconverter` does to one unit: an image of `hm` goes back to its key, anything else stays. */
  function RestoreUnit(u: CodeUnit): (r: CodeUnit)
    ensures A <= u <= A + 9 ==> r == u - A + Zero
    ensures u == R ==> r == Sep
    ensures !IsCodeLetter(u) ==> r == u
  {
    assert A <= u <= A + 9 ==> u == A + (u - A);
    if u in Reverse then Reverse[u] else u
  }

  /** What `converter` returns: same length, each digit as its letter 'A'..'J', each separator as 'R', every other unit as it was. */
  function Substituted(a: Text): (r: Text)
    ensures |r| == |a|
    ensures forall i :: 0 <= i < |a| ==>
      (IsDigit(a[i]) ==> r[i] == a[i] - Zero + A) &&
      (a[i] == Sep ==> r[i] == R) &&
      (!IsDigit(a[i]) && a[i] != Sep ==> r[i] == a[i])
  {
    seq(|a|, i requires 0 <= i < |a| => SubstituteUnit(a[i]))
  }

  /** What `deconverter` returns: same length, each letter 'A'..'J' as its digit, each 'R' as the separator, every other unit as it was. */
  function Restored(a: Text): (r: Text)
    ensures |r| == |a|
    ensures forall i :: 0 <= i < |a| ==>
      (A <= a[i] <= A + 9 ==> r[i] == a[i] - A + Zero) &&
      (a[i] == R ==> r[i] == Sep) &&
      (!IsCodeLetter(a[i]) ==> r[i] == a[i])
  {
    seq(|a|, i requires 0 <= i < |a| => RestoreUnit(a[i]))
  }

  /** `deconverter` undoes `converter` on every text that holds none of the table's images. */
  lemma RestoreSubstituted(x: Text)
    requires forall i :: 0 <= i < |x| ==> !IsCodeLetter(x[i])
    ensures Restored(Substituted(x)) == x
  {
  }

  /** `converter` turns the separators of a text of digits and separators into its 'R's, one for one. */
  lemma {:induction false} SubstitutedCount(x: Text)
    requires Within(x, DigitsAndSep)
    ensures multiset(Substituted(x))[R] == multiset(x)[Sep]
  {
    if x != [] {
      var n := |x| - 1;
      assert x == x[..n] + [x[n]];
      assert Substituted(x) == Substituted(x[..n]) + [SubstituteUnit(x[n])];
      SubstitutedCount(x[..n]);
    }
  }

  // ---------------------------------------------------------------------------
  // The operations

  /** `converter`: copies `a` unit by unit, swapping every key of `hm` for its image. */
  method Converter(a: Text) returns (cnv: Text)
    ensures cnv == Substituted(a)
  {
    cnv := [];
    var i := 0;
    while i < |a|
      invariant 0 <= i <= |a|
      invariant cnv == Substituted(a[..i])
    {
      var tempval := a[i];
      if tempval in Table {
        cnv := cnv + [Table[tempval]];
      } else {
        cnv := cnv + [tempval];
      }
      i := i + 1;
    }
    assert a[..i] == a;
  }

  /** The first loop of `deconverter`: puts `hm`'s image to key pairs into `rev`, one key at a time, in any order. */
  method ReverseTable() returns (rev: map<CodeUnit, CodeUnit>)
    ensures IsInverse(rev, Table)
  {
    TableInjective();
    rev := map[];
    var enckey := Table.Keys;
    while enckey != {}
      invariant enckey <= Table.Keys
      invariant forall k :: k in Table && k !in enckey ==> Table[k] in rev && rev[Table[k]] == k
      invariant forall v :: v in rev ==> rev[v] in Table && rev[v] !in enckey && Table[rev[v]] == v
      decreases enckey
    {
      var tc :| tc in enckey;
      rev := rev[Table[tc] := tc];
      enckey := enckey - {tc};
    }
    assert rev.Keys == Table.Values by {
      forall v | v in Table.Values ensures v in rev {
        var k :| k in Table && Table[k] == v;
      }
    }
  }

  /** `deconverter`: builds `rev`, then copies `a` unit by unit, swapping every image of `hm` back to its key. */
  method Deconverter(a: Text) returns (cnv: Text)
    ensures cnv == Restored(a)
  {
    var rev := ReverseTable();
    InverseIsUnique(rev);
    cnv := [];
    var i := 0;
    while i < |a|
      invariant 0 <= i <= |a|
      invariant cnv == Restored(a[..i])
    {
      var tempval := a[i];
      if tempval in rev {
        cnv := cnv + [rev[tempval]];
      } else {
        cnv := cnv + [tempval];
      }
      i := i + 1;
    }
    assert a[..i] == a;
  }

  /** The decimal code of every character of `s`, in order. */
  function Codes(s: Text): seq<Text> {
    seq(|s|, i requires 0 <= i < |s| => Decimal(s[i]))
  }

  /**
    What `Midencrypt` returns: the sentinel "NULVAL" when `trim()` leaves nothing, and
    otherwise the decimal codes joined by the separator, passed through `converter`.
  */
  function Encoding(s: Text): Outcome {
    if Trim(s) == [] then Sentinel else Ok(Substituted(Join(Codes(s), [Sep])))
  }

  /**
    The characters `Middecrypt` appends for the segments `segs`: each one parsed by
    `Integer.parseInt` and narrowed by `(char)`; None once a segment does not parse.
  */
  function Characters(segs: seq<Text>): Option<Text> {
    if segs == [] then Some([])
    else
      match Characters(segs[..|segs| - 1])
      case None => None
      case Some(t) =>
        match ParseInt(segs[|segs| - 1])
        case None => None
        case Some(v) => Some(t + [ToUnit(v)])
  }

  /** What `Middecrypt` returns: the characters of the split, deconverted input, or null when a segment does not parse. */
  function Decoding(a: Text): Outcome {
    match Characters(Split(Restored(a), [Sep]))
    case None => Err(Null)
    case Some(t) => Ok(t)
  }

  /** Block 1 of `Midencrypt`: appends the separator and then each character's decimal code to `ascii`. */
  method Serialize(pval: Text) returns (ascii: Text)
    requires pval != []
    ensures ascii == [Sep] + Join(Codes(pval), [Sep])
  {
    ascii := [];
    var i := 0;
    while i < |pval|
      invariant 0 <= i <= |pval|
      invariant ascii == if i == 0 then [] else [Sep] + Join(Codes(pval[..i]), [Sep])
    {
      var tpac := pval[i];
      if i == 0 {
        assert Codes(pval[..1]) == [Decimal(tpac)];
      } else {
        assert Codes(pval[..i + 1]) == Codes(pval[..i]) + [Decimal(tpac)];
        JoinSnoc(Codes(pval[..i]), Decimal(tpac), [Sep]);
      }
      ascii := ascii + [Sep] + Decimal(tpac);
      i := i + 1;
    }
    assert pval[..i] == pval;
  }

  /** `Midencrypt`: the separator and the decimal code of each character go into `ascii`; the leading separator is cut off and the rest converted. */
  method MidEncrypt(pval: Text) returns (r: Outcome)
    ensures r == Encoding(pval)
  {
    if Trim(pval) == [] || |pval| <= 0 {
      return Sentinel;
    }
    var ascii := Serialize(pval);
    var eval := Converter(ascii[1..]);
    r := Ok(eval);
  }

  /** `Middecrypt`: deconverts, splits on the separator and appends one character per segment; null when a segment does not parse. */
  method MidDecrypt(a: Text) returns (r: Outcome)
    ensures r == Decoding(a)
  {
    var asvl := Deconverter(a);
    var tval := Split(asvl, [Sep]);
    var tdec: Text := [];
    var i := 0;
    while i < |tval|
      invariant 0 <= i <= |tval|
      invariant Characters(tval[..i]) == Some(tdec)
    {
      var temp := ParseInt(tval[i]);
      assert tval[..i + 1][..i] == tval[..i];
      if temp.None? {
        CharactersFailureSticks(tval, i + 1);
        return Err(Null);
      }
      tdec := tdec + [ToUnit(temp.value)];
      i := i + 1;
    }
    assert tval[..i] == tval;
    r := Ok(tdec);
  }

  // ---------------------------------------------------------------------------
  // Properties

  /** Once a prefix of the segments fails to parse, the whole decoding fails. */
  lemma {:induction false} CharactersFailureSticks(segs: seq<Text>, n: nat)
    requires n <= |segs| && Characters(segs[..n]) == None
    ensures Characters(segs) == None
    decreases |segs| - n
  {
    if n < |segs| {
      assert segs[..n + 1][..n] == segs[..n];
      CharactersFailureSticks(segs, n + 1);
    } else {
      assert segs[..n] == segs;
    }
  }

  /** The decoded characters exist exactly when every segment parses, and then there is one per segment, its value narrowed. */
  lemma {:induction false} CharactersMeaning(segs: seq<Text>)
    ensures Characters(segs).Some? <==> forall k :: 0 <= k < |segs| ==> ParseInt(segs[k]).Some?
    ensures Characters(segs).Some? ==>
      |Characters(segs).value| == |segs| &&
      forall k :: 0 <= k < |segs| ==> Characters(segs).value[k] == ToUnit(ParseInt(segs[k]).value)
  {
    if segs != [] {
      var n := |segs| - 1;
      CharactersMeaning(segs[..n]);
      assert forall k :: 0 <= k < n ==> segs[..n][k] == segs[k];
    }
  }

  /** `Middecrypt` yields null exactly when some segment of the split, deconverted input is not an int numeral. */
  lemma DecodingFailsIff(a: Text)
    ensures var segs := Split(Restored(a), [Sep]);
      Decoding(a) == Err(Null) <==> exists k :: 0 <= k < |segs| && ParseInt(segs[k]).None?
  {
    CharactersMeaning(Split(Restored(a), [Sep]));
  }

  /** `Midencrypt` returns the sentinel exactly when every unit is at or below U+0020, the empty string included. */
  lemma EncodingSentinelIffBlank(s: Text)
    ensures Encoding(s) == Sentinel <==> IsBlank(s)
    ensures !IsBlank(s) ==> Encoding(s).Ok?
  {
    TrimEmptyIffBlank(s);
  }

  /** The decimal codes of non-blank text, joined by the separator, use only digits and separators and start and end with a digit. */
  lemma SerializedShape(s: Text)
    requires s != []
    ensures var x := Join(Codes(s), [Sep]);
      Within(x, DigitsAndSep) && x != [] && IsDigit(x[0]) && IsDigit(x[|x| - 1]) &&
      multiset(x)[Sep] == |s| - 1
  {
    var cs := Codes(s);
    forall i | 0 <= i < |cs| ensures Within(cs[i], DigitsAndSep) && Sep !in cs[i] {
      assert IsNumeral(cs[i]);
    }
    assert Within([Sep], DigitsAndSep);
    JoinWithin(cs, [Sep], DigitsAndSep);
    JoinEnds(cs, [Sep]);
    JoinCount(cs, Sep);
  }

  /**
    For non-blank input, `Midencrypt` writes only the letters 'A'..'J' and 'R', with
    one 'R' between each two characters' codes and none at either end.
  */
  lemma EncodingShape(s: Text)
    requires !IsBlank(s)
    ensures Encoding(s).Ok?
    ensures var t := Encoding(s).text;
      t != [] && t[0] != R && t[|t| - 1] != R &&
      (forall i :: 0 <= i < |t| ==> IsCodeLetter(t[i])) &&
      multiset(t)[R] == |s| - 1
  {
    TrimEmptyIffBlank(s);
    SerializedShape(s);
    SubstitutedShape(Join(Codes(s), [Sep]));
  }

  /** `converter` on digits and separators that start and end with a digit: code letters only, one 'R' per separator, none at either end. */
  lemma SubstitutedShape(x: Text)
    requires Within(x, DigitsAndSep) && x != [] && IsDigit(x[0]) && IsDigit(x[|x| - 1])
    ensures var t := Substituted(x);
      t != [] && t[0] != R && t[|t| - 1] != R &&
      (forall i :: 0 <= i < |t| ==> IsCodeLetter(t[i])) &&
      multiset(t)[R] == multiset(x)[Sep]
  {
    SubstitutedCount(x);
    SubstitutedLetters(x);
  }

  /** `converter` writes a text of digits and separators in code letters, with an 'R' exactly where a separator was. */
  lemma SubstitutedLetters(x: Text)
    requires Within(x, DigitsAndSep)
    ensures forall i :: 0 <= i < |x| ==> IsCodeLetter(Substituted(x)[i]) && (Substituted(x)[i] == R <==> x[i] == Sep)
  {
    forall i | 0 <= i < |x| ensures IsCodeLetter(Substituted(x)[i]) && (Substituted(x)[i] == R <==> x[i] == Sep) {
      assert x[i] in DigitsAndSep;
    }
  }

  /** The parse of each character's code gives that character back. */
  lemma CharactersOfCodes(s: Text)
    ensures Characters(Codes(s)) == Some(s)
  {
    var cs := Codes(s);
    forall k | 0 <= k < |cs| ensures ParseInt(cs[k]) == Some(s[k]) {
      ParseDecimal(s[k]);
    }
    CharactersMeaning(cs);
    var t := Characters(cs).value;
    assert forall k :: 0 <= k < |s| ==> t[k] == ToUnit(s[k]) == s[k];
    assert t == s;
  }

  /** `deconverter` gives back the serialized codes that `converter` turned into letters. */
  lemma RestoreSerialized(s: Text)
    requires s != []
    ensures var x := Join(Codes(s), [Sep]); Restored(Substituted(x)) == x
  {
    SerializedShape(s);
    RestoreWithin(Join(Codes(s), [Sep]));
  }

  /** A text of digits and separators holds no code letter, so `deconverter` undoes `converter` on it. */
  lemma RestoreWithin(x: Text)
    requires Within(x, DigitsAndSep)
    ensures Restored(Substituted(x)) == x
  {
    forall i | 0 <= i < |x| ensures !IsCodeLetter(x[i]) {
      assert x[i] in DigitsAndSep;
    }
    RestoreSubstituted(x);
  }

  /** Splitting the serialized codes on the separator gives each character's numeral back. */
  lemma SplitSerialized(s: Text)
    requires s != []
    ensures Split(Join(Codes(s), [Sep]), [Sep]) == Codes(s)
  {
    var cs := Codes(s);
    forall i | 0 <= i < |cs| ensures Sep !in cs[i] {
      assert IsNumeral(cs[i]);
    }
    SplitJoin(cs, Sep);
  }

  /** `Middecrypt(Midencrypt(s)) == s` for every non-blank s. */
  lemma RoundTrip(s: Text)
    requires !IsBlank(s)
    ensures Encoding(s).Ok?
    ensures Decoding(Encoding(s).text) == Ok(s)
  {
    TrimEmptyIffBlank(s);
    RestoreSerialized(s);
    SplitSerialized(s);
    CharactersOfCodes(s);
  }

  /** "A" (code 65) encodes as "GF". */
  lemma EncodeLetterA()
    ensures Encoding(['A' as CodeUnit]) == Ok(['G' as CodeUnit, 'F' as CodeUnit])
  {
    var s := ['A' as CodeUnit];
    assert !IsBlank(s) by { assert s[0] > Space; }
    TrimEmptyIffBlank(s);
    assert Decimal(65) == [Zero + 6, Zero + 5];
    assert Codes(s) == [Decimal(65)];
  }

  /** The empty string does not decode: it splits into one empty segment, which does not parse. */
  lemma DecodeEmptyFails()
    ensures Decoding([]) == Err(Null)
  {
    assert Restored([]) == [];
    assert Split([], [Sep]) == [[]];
  }

  /** "GX" deconverts to "6X", which does not parse. */
  lemma DecodeMalformedFails()
    ensures Decoding(['G' as CodeUnit, 'X' as CodeUnit]) == Err(Null)
  {
    var d := ['6' as CodeUnit, 'X' as CodeUnit];
    assert Restored(['G' as CodeUnit, 'X' as CodeUnit]) == d;
    PiecesWhole(d, Sep);
    assert !IsNumeral(d) by { assert !IsDigit(d[1]); }
    assert ParseInt(d) == None;
  }
}
