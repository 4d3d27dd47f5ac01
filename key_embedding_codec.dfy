/**
  The multiplicative key-embedding codec (RTEncryptionV2). Encoding multiplies every
  character code by a key in [10, 99], writes the products in decimal with a separator
  after each, cuts one unit off the end, reads the last unit as a check digit d and
  splices the key's two digits in before index d. Decoding reads d from the last unit,
  takes the units at d and d + 1 as the key, splits the rest on the separator and
  divides every product by the key.

  The separator is a parameter: `LiteralSeparator` is what the source file spells,
  `IntendedSeparator` the single unit its comment names.
*/
module KeyEmbeddingCodec {
  import opened JavaText

  /** `separator` as the source file spells it: the two units U+00DF U+20AC ("ß€"). */
  const LiteralSeparator: Text := ['ß' as CodeUnit, '€' as CodeUnit]

  /** `separator` as its comment names it: the single unit U+07C0. */
  const IntendedSeparator: Text := [0x07C0 as CodeUnit]

  /** The keys `nextInt(90) + 10` can draw. */
  predicate IsKey(key: int) {
    10 <= key <= 99
  }

  function Min(a: int, b: int): int {
    if a < b then a else b
  }

  // ---------------------------------------------------------------------------
  // Encoding

  /** `temp * key`: it stays far inside int, so it never wraps, and dividing it by the key gives the code back. */
  function Product(u: CodeUnit, key: int): (p: nat)
    requires IsKey(key)
    ensures p <= 0xFFFF * 99 <= MaxInt
    ensures p / key == u
  {
    ProductBound(u, key);
    u * key
  }

  lemma ProductBound(u: nat, key: int)
    requires u <= 0xFFFF && IsKey(key)
    ensures 0 <= u * key <= 0xFFFF * 99
    ensures u * key / key == u
  {
    assert u * key <= 0xFFFF * key;
    DivExact(u, key);
  }

  /** A multiple of a positive b divides back exactly. */
  lemma DivExact(c: nat, b: int)
    requires b > 0
    ensures c * b / b == c
  {
    var q := c * b / b;
    var r := c * b % b;
    assert (c - q) * b == r;
    MulSmall(c - q, b);
  }

  lemma MulSmall(x: int, b: int)
    requires b > 0 && 0 <= x * b < b
    ensures x == 0
  {
    if x > 0 {
      MulGrows(x, b);
    } else if x < 0 {
      MulGrows(-x, b);
    }
  }

  lemma MulGrows(x: int, b: int)
    requires x >= 1 && b > 0
    ensures x * b >= b
  {
  }

  /** The decimal products of every character of `s`, in order. */
  function Products(s: Text, key: int): seq<Text>
    requires IsKey(key)
  {
    seq(|s|, i requires 0 <= i < |s| => Decimal(Product(s[i], key)))
  }

  /** `encval`: the products, each followed by the separator, with one unit cut off the end. */
  function ProductText(s: Text, key: int, sep: Text): Text
    requires IsKey(key) && s != []
  {
    var envval := Join(Products(s, key), sep) + sep;
    envval[..|envval| - 1]
  }

  /** The key spliced in at the check digit: its digits go in before index d when d is an index of `encval`. */
  function Mixed(encval: Text, d: int, key: nat): Text {
    if 0 <= d < |encval| then encval[..d] + Decimal(key) + encval[d..] else encval
  }

  /**
    What `asciiencrypt` returns with key `key` and separator `sep`: the sentinel
    "NullValue" when `trim()` leaves nothing; an "ERRBL2~" error when the last unit of
    `encval` is not a digit; otherwise `encval` with the key mixed in.
  */
  function Encryption(s: Text, key: int, sep: Text): Outcome
    requires IsKey(key)
  {
    if Trim(s) == [] || |s| == 0 then Sentinel
    else
      var encval := ProductText(s, key, sep);
      if encval == [] then Err(Block2)
      else
        match ParseInt([encval[|encval| - 1]])
        case None => Err(Block2)
        case Some(d) => Ok(Mixed(encval, d, key))
  }

  /** `asciiencrypt`, with the random key passed in. */
  method AsciiEncrypt(pval: Text, key: int, sep: Text) returns (r: Outcome)
    requires IsKey(key)
    ensures r == Encryption(pval, key, sep)
  {
    if Trim(pval) == [] || |pval| <= 0 {
      return Sentinel;
    }
    // Block 1: the products, each followed by the separator.
    var envval := Serialize(pval, key, sep);
    var encval := envval[..|envval| - 1];
    assert encval == ProductText(pval, key, sep);
    // Block 2: the check digit, and the key mixed in before it.
    if encval == [] {
      return Err(Block2);
    }
    var lastnum := ParseInt([encval[|encval| - 1]]);
    if lastnum.None? {
      return Err(Block2);
    }
    var eval := MixKey(encval, lastnum.value, key);
    r := Ok(eval);
  }

  /** Block 1 of `asciiencrypt`: appends each character's product and then the separator to `envval`. */
  method Serialize(pval: Text, key: int, sep: Text) returns (envval: Text)
    requires IsKey(key) && pval != []
    ensures envval == Join(Products(pval, key), sep) + sep
  {
    envval := [];
    var i := 0;
    while i < |pval|
      invariant 0 <= i <= |pval|
      invariant envval == if i == 0 then [] else Join(Products(pval[..i], key), sep) + sep
    {
      var temp := pval[i];
      var ftemp := Product(temp, key);
      if i == 0 {
        assert Products(pval[..1], key) == [Decimal(ftemp)];
      } else {
        assert Products(pval[..i + 1], key) == Products(pval[..i], key) + [Decimal(ftemp)];
        JoinSnoc(Products(pval[..i], key), Decimal(ftemp), sep);
      }
      envval := envval + Decimal(ftemp) + sep;
      i := i + 1;
    }
    assert pval[..i] == pval;
  }

  /** The key-mixing loop of `asciiencrypt`: copies `encval`, appending the key's digits when `count` reaches the check digit. */
  method MixKey(encval: Text, checkdigit: int, key: nat) returns (keymixer: Text)
    ensures keymixer == Mixed(encval, checkdigit, key)
  {
    var count := 0;
    keymixer := [];
    var i := 0;
    while i < |encval|
      invariant 0 <= i <= |encval| && count == i
      invariant keymixer == Mixed(encval[..i], checkdigit, key)
    {
      MixedStep(encval, i, checkdigit, key);
      if count == checkdigit {
        keymixer := keymixer + Decimal(key);
      }
      keymixer := keymixer + [encval[i]];
      count := count + 1;
      i := i + 1;
    }
    assert encval[..i] == encval;
  }

  /** One more unit of `encval` extends the mixed prefix by that unit, after the key when the unit sits at d. */
  lemma MixedStep(encval: Text, i: nat, d: int, key: nat)
    requires i < |encval|
    ensures Mixed(encval[..i + 1], d, key) ==
      (if d == i then Mixed(encval[..i], d, key) + Decimal(key) else Mixed(encval[..i], d, key)) + [encval[i]]
  {
    var p, q := encval[..i], encval[..i + 1];
    assert q == p + [encval[i]];
    if 0 <= d < i {
      assert q[..d] == p[..d];
      assert q[d..] == p[d..] + [encval[i]];
    } else if d == i {
      assert q[..d] == p;
      assert q[d..] == [encval[i]];
    }
  }

  // ---------------------------------------------------------------------------
  // Decoding

  /** `key` after Block 1 of `asciidecrypt`: the units at d and d + 1, as far as they exist; null when d is no index. */
  function KeyDigits(pval: Text, d: nat): Option<Text> {
    if d < |pval| then Some(pval[d..Min(d + 2, |pval|)]) else None
  }

  /** `tmp1` after Block 1: every unit except those at d and d + 1. */
  function Residue(pval: Text, d: nat): Text {
    pval[..Min(d, |pval|)] + pval[Min(d + 2, |pval|)..]
  }

  /**
    What Block 2's loop appends for `parts`: every non-empty part parsed and divided by
    `ky` as Java's int division does, then narrowed by `(char)`; None once a part does not
    parse or the key is zero.
  */
  function Quotients(parts: seq<Text>, ky: int): Option<Text> {
    if parts == [] then Some([])
    else
      match Quotients(parts[..|parts| - 1], ky)
      case None => None
      case Some(t) =>
        var part := parts[|parts| - 1];
        if part == [] then Some(t)
        else
          match ParseInt(part)
          case None => None
          case Some(v) => if ky == 0 then None else Some(t + [ToUnit(IntDiv(v, ky))])
  }

  /** Block 2 of `asciidecrypt`: an "ERRBL2~" error when the key is null or does not parse, or when a part fails. */
  function Recovery(key: Option<Text>, rest: Text, sep: Text): Outcome
    requires |sep| > 0
  {
    if key.None? then Err(Block2)
    else
      match ParseInt(key.value)
      case None => Err(Block2)
      case Some(ky) =>
        match Quotients(Split(rest, sep), ky)
        case None => Err(Block2)
        case Some(t) => Ok(t)
  }

  /**
    What `asciidecrypt` returns with separator `sep`: the sentinel "NullValue" when
    `trim()` leaves nothing; an "ERRBL1~" error when the last unit is not a digit;
    otherwise Block 2 applied to the key and the rest that Block 1 separates.
  */
  function Decryption(pval: Text, sep: Text): Outcome
    requires |sep| > 0
  {
    if Trim(pval) == [] || |pval| == 0 then Sentinel
    else
      var last := pval[|pval| - 1];
      ParseOneUnit(last);
      match ParseInt([last])
      case None => Err(Block1)
      case Some(d) => Recovery(KeyDigits(pval, d), Residue(pval, d), sep)
  }

  /** `asciidecrypt`. */
  method AsciiDecrypt(pval: Text, sep: Text) returns (r: Outcome)
    requires |sep| > 0
    ensures r == Decryption(pval, sep)
  {
    if Trim(pval) == [] || |pval| <= 0 {
      return Sentinel;
    }
    // Block 1: the check digit, then the key out of its position.
    ParseOneUnit(pval[|pval| - 1]);
    var checkdigit := ParseInt([pval[|pval| - 1]]);
    if checkdigit.None? {
      return Err(Block1);
    }
    var key, tmp1 := ExtractKey(pval, checkdigit.value);
    // Block 2: parse the key, split, divide.
    if key.None? {
      return Err(Block2);
    }
    var ky := ParseInt(key.value);
    if ky.None? {
      return Err(Block2);
    }
    var parts := Split(tmp1, sep);
    var fnval := DivideParts(parts, ky.value);
    r := if fnval.None? then Err(Block2) else Ok(fnval.value);
  }

  /** The loop of Block 1: the units at d and d + 1 go into `key`, all others into `tmp1`. */
  method ExtractKey(pval: Text, checkdigit: nat) returns (key: Option<Text>, tmp1: Text)
    ensures key == KeyDigits(pval, checkdigit) && tmp1 == Residue(pval, checkdigit)
  {
    key := None;
    tmp1 := [];
    var i := 0;
    while i < |pval|
      invariant 0 <= i <= |pval|
      invariant key == KeyDigits(pval[..i], checkdigit)
      invariant tmp1 == Residue(pval[..i], checkdigit)
    {
      assert pval[..i + 1] == pval[..i] + [pval[i]];
      if i == checkdigit {
        assert pval[..i + 1][checkdigit..Min(checkdigit + 2, i + 1)] == [pval[i]];
        key := Some([pval[i]]);
      } else if i == checkdigit + 1 {
        assert pval[..i + 1][checkdigit..Min(checkdigit + 2, i + 1)] == pval[..i][checkdigit..i] + [pval[i]];
        key := Some(key.value + [pval[i]]);
      } else {
        if i > checkdigit + 1 {
          assert pval[..i + 1][checkdigit..checkdigit + 2] == pval[checkdigit..checkdigit + 2];
          assert pval[..i][checkdigit..checkdigit + 2] == pval[checkdigit..checkdigit + 2];
        }
        tmp1 := tmp1 + [pval[i]];
      }
      i := i + 1;
    }
    assert pval[..i] == pval;
  }

  /** The loop of Block 2: each non-empty part parsed, divided by the key and narrowed; None once one throws. */
  method DivideParts(parts: seq<Text>, ky: int) returns (fnval: Option<Text>)
    ensures fnval == Quotients(parts, ky)
  {
    var acc: Text := [];
    var i := 0;
    while i < |parts|
      invariant 0 <= i <= |parts|
      invariant Quotients(parts[..i], ky) == Some(acc)
    {
      var part := parts[i];
      assert parts[..i + 1][..i] == parts[..i];
      if part != [] {
        var v := ParseInt(part);
        if v.None? || ky == 0 {
          QuotientsFailureSticks(parts, i + 1, ky);
          return None;
        }
        acc := acc + [ToUnit(IntDiv(v.value, ky))];
      }
      i := i + 1;
    }
    assert parts[..i] == parts;
    fnval := Some(acc);
  }

  // ---------------------------------------------------------------------------
  // Properties

  /** Once a prefix of the parts fails, the whole of Block 2 fails. */
  lemma {:induction false} QuotientsFailureSticks(parts: seq<Text>, n: nat, ky: int)
    requires n <= |parts| && Quotients(parts[..n], ky) == None
    ensures Quotients(parts, ky) == None
    decreases |parts| - n
  {
    if n < |parts| {
      assert parts[..n + 1][..n] == parts[..n];
      QuotientsFailureSticks(parts, n + 1, ky);
    } else {
      assert parts[..n] == parts;
    }
  }

  /** `asciiencrypt` returns "NullValue" exactly when every unit is at or below U+0020, the empty string included. */
  lemma EncryptionSentinelIffBlank(s: Text, key: int, sep: Text)
    requires IsKey(key)
    ensures Encryption(s, key, sep) == Sentinel <==> IsBlank(s)
  {
    TrimEmptyIffBlank(s);
  }

  /** `asciidecrypt` returns "NullValue" exactly when every unit is at or below U+0020, the empty string included. */
  lemma DecryptionSentinelIffBlank(pval: Text, sep: Text)
    requires |sep| > 0
    ensures Decryption(pval, sep) == Sentinel <==> IsBlank(pval)
  {
    TrimEmptyIffBlank(pval);
  }

  /** `asciidecrypt` fails in Block 1 exactly when the input is not blank and its last unit is not an ASCII digit. */
  lemma DecryptionBlock1Iff(pval: Text, sep: Text)
    requires |sep| > 0
    ensures Decryption(pval, sep) == Err(Block1) <==> !IsBlank(pval) && !IsDigit(pval[|pval| - 1])
  {
    TrimEmptyIffBlank(pval);
    if !IsBlank(pval) {
      ParseOneUnit(pval[|pval| - 1]);
    }
  }

  /**
    With a one-unit separator, cutting one unit off removes exactly the trailing
    separator: `encval` is the products joined by the separator, and its last unit is
    the last digit of the last product, so the check digit is in 0..9.
  */
  lemma OneUnitSeparatorProductText(s: Text, key: int, sep: Text)
    requires IsKey(key) && s != [] && |sep| == 1
    ensures ProductText(s, key, sep) == Join(Products(s, key), sep)
    ensures var e := ProductText(s, key, sep);
      e != [] && e[|e| - 1] == Zero + Product(s[|s| - 1], key) % 10 &&
      ParseInt([e[|e| - 1]]) == Some(Product(s[|s| - 1], key) % 10)
  {
    var ps := Products(s, key);
    var e := Join(ps, sep);
    assert (e + sep)[..|e + sep| - 1] == e;
    JoinEnds(ps, sep);
    ParseOneUnit(e[|e| - 1]);
  }

  /**
    With the separator as the source file spells it, `encval` ends in U+00DF, the check
    digit does not parse, and `asciiencrypt` fails in Block 2 for every non-blank input
    and every key.
  */
  lemma LiteralSeparatorFails(s: Text, key: int)
    requires IsKey(key) && !IsBlank(s)
    ensures Encryption(s, key, LiteralSeparator) == Err(Block2)
  {
    TrimEmptyIffBlank(s);
    var e := Join(Products(s, key), LiteralSeparator);
    var envval := e + LiteralSeparator;
    assert envval[..|envval| - 1] == e + ['ß' as CodeUnit];
    ParseOneUnit('ß' as CodeUnit);
  }

  /**
    Decoding Block 1 undoes the key mixing: from a text with the key mixed in at d it
    takes back exactly the key's digits and the text before mixing, and the last unit,
    where the check digit is read, is unchanged.
  */
  lemma ExtractMixed(encval: Text, d: nat, key: int)
    requires IsKey(key) && d < |encval|
    ensures var m := Mixed(encval, d, key);
      |m| == |encval| + 2 && m[|m| - 1] == encval[|encval| - 1] &&
      KeyDigits(m, d) == Some(Decimal(key)) && Residue(m, d) == encval
  {
    var k := Decimal(key);
    assert |k| == 2;
    var m := encval[..d] + k + encval[d..];
    assert m[d..d + 2] == k;
    assert m[..d] + m[d + 2..] == encval by {
      assert m[..d] == encval[..d];
      assert m[d + 2..] == encval[d..];
    }
  }

  /** A text whose last unit is a digit is not blank. */
  lemma EndsInDigitNotBlank(t: Text)
    requires t != [] && IsDigit(t[|t| - 1])
    ensures !IsBlank(t) && Trim(t) != []
  {
    TrimEmptyIffBlank(t);
  }

  /** Block 2 applied to the products of `s` under the key that made them gives `s` back. */
  lemma {:induction false} QuotientsOfProducts(s: Text, key: int)
    requires IsKey(key)
    ensures Quotients(Products(s, key), key) == Some(s)
  {
    if s != [] {
      var n := |s| - 1;
      var ps := Products(s, key);
      assert ps[..n] == Products(s[..n], key);
      QuotientsOfProducts(s[..n], key);
      var p := Product(s[n], key);
      assert ps[n] == Decimal(p);
      ParseDecimal(p);
      assert s[..n] + [s[n]] == s;
    }
  }

  /**
    The key is mixed in exactly when the check digit, the last digit of the last
    product, is an index of `encval`.
  */
  predicate KeyInserted(s: Text, key: int, sep: Text)
    requires IsKey(key)
  {
    s != [] && Product(s[|s| - 1], key) % 10 < |ProductText(s, key, sep)|
  }

  /** With a one-unit separator, encoding yields `encval` with the key mixed in at the last digit of the last product. */
  lemma EncryptionMixesAtLastDigit(s: Text, key: int, sep: Text)
    requires IsKey(key) && !IsBlank(s) && |sep| == 1
    ensures Encryption(s, key, sep) == Ok(Mixed(ProductText(s, key, sep), Product(s[|s| - 1], key) % 10, key))
  {
    TrimEmptyIffBlank(s);
    OneUnitSeparatorProductText(s, key, sep);
  }

  /** Block 2, given the key's digits and the products joined by a non-digit separator, gives the text back. */
  lemma RecoverProducts(s: Text, key: int, sep: Text)
    requires IsKey(key) && s != [] && |sep| == 1 && !IsDigit(sep[0])
    ensures Recovery(Some(Decimal(key)), Join(Products(s, key), sep), sep) == Ok(s)
  {
    var ps := Products(s, key);
    ParseDecimal(key);
    forall i | 0 <= i < |ps| ensures sep[0] !in ps[i] {
      assert IsNumeral(ps[i]);
    }
    SplitJoin(ps, sep[0]);
    assert [sep[0]] == sep;
    QuotientsOfProducts(s, key);
  }

  /**
    `asciidecrypt(asciiencrypt(s)) == s` for non-blank s, a key in [10, 99], a
    one-unit separator that is not an ASCII digit, and a check digit at which the key
    was mixed in.
  */
  lemma RoundTrip(s: Text, key: int, sep: Text)
    requires IsKey(key) && !IsBlank(s)
    requires |sep| == 1 && !IsDigit(sep[0])
    requires KeyInserted(s, key, sep)
    ensures Encryption(s, key, sep).Ok?
    ensures Decryption(Encryption(s, key, sep).text, sep) == Ok(s)
  {
    EncryptionMixesAtLastDigit(s, key, sep);
    DecryptMixed(s, key, sep);
  }

  /** Decoding the products with the key mixed in at the last digit of the last product gives the text back. */
  lemma DecryptMixed(s: Text, key: int, sep: Text)
    requires IsKey(key) && s != [] && |sep| == 1 && !IsDigit(sep[0])
    requires KeyInserted(s, key, sep)
    ensures Decryption(Mixed(ProductText(s, key, sep), Product(s[|s| - 1], key) % 10, key), sep) == Ok(s)
  {
    var e := ProductText(s, key, sep);
    var d := Product(s[|s| - 1], key) % 10;
    OneUnitSeparatorProductText(s, key, sep);
    var m := Mixed(e, d, key);
    ExtractMixed(e, d, key);
    DecryptionAtDigit(m, sep, d);
    RecoverProducts(s, key, sep);
  }

  /** A text whose last unit is the digit d goes past Block 1 with check digit d, on to Block 2. */
  lemma DecryptionAtDigit(pval: Text, sep: Text, d: nat)
    requires |sep| > 0 && d <= 9 && pval != [] && pval[|pval| - 1] == Zero + d
    ensures Decryption(pval, sep) == Recovery(KeyDigits(pval, d), Residue(pval, d), sep)
  {
    EndsInDigitNotBlank(pval);
    ParseOneUnit(pval[|pval| - 1]);
  }

  /**
    When the check digit is not an index of `encval`, encoding hands `encval` back
    without the key, and decoding it fails in Block 2: no index equals d, so `key`
    stays null.
  */
  lemma KeyLostFails(s: Text, key: int, sep: Text)
    requires IsKey(key) && !IsBlank(s) && |sep| == 1
    requires !KeyInserted(s, key, sep)
    ensures Encryption(s, key, sep) == Ok(ProductText(s, key, sep))
    ensures Decryption(ProductText(s, key, sep), sep) == Err(Block2)
  {
    var e := ProductText(s, key, sep);
    EncryptionMixesAtLastDigit(s, key, sep);
    OneUnitSeparatorProductText(s, key, sep);
    EndsInDigitNotBlank(e);
  }

  /** With the intended separator U+07C0 the codec round-trips whenever the key was mixed in. */
  lemma IntendedSeparatorRoundTrip(s: Text, key: int)
    requires IsKey(key) && !IsBlank(s)
    requires KeyInserted(s, key, IntendedSeparator)
    ensures Encryption(s, key, IntendedSeparator).Ok?
    ensures Decryption(Encryption(s, key, IntendedSeparator).text, IntendedSeparator) == Ok(s)
  {
    RoundTrip(s, key, IntendedSeparator);
  }

  /** "A" under key 13 gives the single product 845, whose check digit 5 lies past its end: the key is lost. */
  lemma KeyLostExample()
    ensures Encryption(['A' as CodeUnit], 13, IntendedSeparator) == Ok(Decimal(845))
    ensures Decryption(Decimal(845), IntendedSeparator) == Err(Block2)
  {
    var s := ['A' as CodeUnit];
    assert !IsBlank(s) by { assert s[0] > Space; }
    assert Products(s, 13) == [Decimal(845)];
    assert |Decimal(845)| == 3;
    OneUnitSeparatorProductText(s, 13, IntendedSeparator);
    KeyLostFails(s, 13, IntendedSeparator);
  }

  /** "Hi" under key 10: the last product 1050 ends in 0, the key goes in at the front, and decoding gives "Hi" back. */
  lemma GreetingRoundTrip()
    ensures Encryption(['H' as CodeUnit, 'i' as CodeUnit], 10, IntendedSeparator).Ok?
    ensures Decryption(Encryption(['H' as CodeUnit, 'i' as CodeUnit], 10, IntendedSeparator).text, IntendedSeparator)
      == Ok(['H' as CodeUnit, 'i' as CodeUnit])
  {
    var s := ['H' as CodeUnit, 'i' as CodeUnit];
    assert !IsBlank(s) by { assert s[0] > Space; }
    assert Product(s[1], 10) == 1050;
    IntendedSeparatorRoundTrip(s, 10);
  }
}
