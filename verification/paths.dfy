/** Abstract file-system paths and the derived storage directory of a profile.

    A path is a sequence of names; `Join` appends one name, standing in for
    `path.join` without its platform rules. A profile's storage directory is
    the registry directory joined with the decimal string of its id. */
module Paths {

  type Path = seq<string>

  function Join(dir: Path, name: string): (r: Path)
    ensures |r| == |dir| + 1 && r[..|dir|] == dir && r[|dir|] == name
  {
    dir + [name]
  }

  predicate IsDigit(c: char) {
    '0' <= c <= '9'
  }

  function DigitChar(d: nat): (c: char)
    requires d < 10
    ensures IsDigit(c) && c as int - '0' as int == d
  {
    ('0' as int + d) as char
  }

  /** The decimal form of a non-negative integer, as `id + ''` prints it:
      digits only, and no leading zero except for the number 0 itself. */
  function Decimal(n: nat): (s: string)
    ensures 1 <= |s|
    ensures forall i :: 0 <= i < |s| ==> IsDigit(s[i])
    ensures s[0] == '0' ==> n == 0 && s == "0"
    ensures |s| == 1 <==> n < 10
  {
    if n < 10 then [DigitChar(n)] else Decimal(n / 10) + [DigitChar(n % 10)]
  }

  function DigitValue(c: char): (d: nat)
    requires IsDigit(c)
    ensures d < 10 && DigitChar(d) == c
  {
    c as int - '0' as int
  }

  /** Reads a string of digits back as the number it denotes. */
  function ParseDecimal(s: string): nat
    requires forall i :: 0 <= i < |s| ==> IsDigit(s[i])
  {
    if |s| == 0 then 0
    else ParseDecimal(s[..|s| - 1]) * 10 + DigitValue(s[|s| - 1])
  }

  lemma {:induction false} ParseDecimalInvertsDecimal(n: nat)
    ensures ParseDecimal(Decimal(n)) == n
  {
    var s := Decimal(n);
    if n >= 10 {
      ParseDecimalInvertsDecimal(n / 10);
      assert s[..|s| - 1] == Decimal(n / 10);
    }
  }

  /** Distinct ids never print the same. */
  lemma DecimalInjective(a: nat, b: nat)
    ensures Decimal(a) == Decimal(b) ==> a == b
  {
    ParseDecimalInvertsDecimal(a);
    ParseDecimalInvertsDecimal(b);
  }

  /** The storage directory of the profile (or pending-deletion entry) `id`
      under the registry directory `dir`. */
  function Storage(dir: Path, id: nat): (r: Path)
    ensures |r| == |dir| + 1 && r[..|dir|] == dir
  {
    Join(dir, Decimal(id))
  }

  /** Two ids share a storage directory only if they are the same id, so
      removing one profile's directory never touches another's. */
  lemma StorageInjective(dir: Path, a: nat, b: nat)
    ensures Storage(dir, a) == Storage(dir, b) <==> a == b
  {
    if Storage(dir, a) == Storage(dir, b) {
      assert Storage(dir, a)[|dir|] == Decimal(a);
      DecimalInjective(a, b);
    }
  }

  /** Profile 0's storage directory is the subdirectory named "0", the one
      migration moves legacy content into. */
  lemma StorageOfZero(dir: Path)
    ensures Storage(dir, 0) == Join(dir, "0")
  {
  }
}
