/**
 * Relationship labels. A relationship between two persisted nodes is labelled
 * (and named) `_<idA>_TO_<idB>_`, where the ids are the nodes' database
 * identities written in decimal, as string interpolation of a `long` does.
 */
module Labels {

  predicate IsDigit(c: char)
  {
    '0' <= c <= '9'
  }

  function DigitChar(d: nat): (c: char)
    requires d < 10
    ensures IsDigit(c)
  {
    ['0', '1', '2', '3', '4', '5', '6', '7', '8', '9'][d]
  }

  function DigitValue(c: char): nat
    requires IsDigit(c)
  {
    (c as int - '0' as int) as nat
  }

  /** Decimal notation of a natural number, most significant digit first. */
  function NatToString(n: nat): (r: string)
    ensures |r| >= 1
    ensures forall i :: 0 <= i < |r| ==> IsDigit(r[i])
    decreases n
  {
    if n < 10 then [DigitChar(n)] else NatToString(n / 10) + [DigitChar(n % 10)]
  }

  /** Reads a string of decimal digits back as a number. */
  function DigitsToNat(s: string): nat
    requires forall i :: 0 <= i < |s| ==> IsDigit(s[i])
    decreases |s|
  {
    if s == [] then 0 else 10 * DigitsToNat(s[..|s| - 1]) + DigitValue(s[|s| - 1])
  }

  /** Decimal notation of a (possibly negative) identity. */
  function IdToString(id: int): (r: string)
    ensures |r| >= 1 && '_' !in r
  {
    if id < 0 then "-" + NatToString(-id) else NatToString(id)
  }

  /** The label of the relationship from node `idA` to node `idB`. */
  function RelationshipLabel(idA: int, idB: int): string
  {
    "_" + IdToString(idA) + "_TO_" + IdToString(idB) + "_"
  }

  lemma {:induction false} NatToStringRoundTrip(n: nat)
    ensures DigitsToNat(NatToString(n)) == n
    decreases n
  {
    var r := NatToString(n);
    if n < 10 {
      assert r[..|r| - 1] == [];
    } else {
      NatToStringRoundTrip(n / 10);
      assert r[..|r| - 1] == NatToString(n / 10);
    }
  }

  /** Reads the decimal notation of an identity back. */
  function StringToId(s: string): int
    requires s != [] && (s[0] == '-' || IsDigit(s[0]))
    requires forall i :: 0 < i < |s| ==> IsDigit(s[i])
  {
    if s[0] == '-' then -(DigitsToNat(s[1..]) as int) else DigitsToNat(s)
  }

  /** Writing an identity and reading it back gives the identity. */
  lemma IdToStringRoundTrip(id: int)
    ensures var s := IdToString(id);
            s != [] && (s[0] == '-' || IsDigit(s[0])) && (forall i :: 0 < i < |s| ==> IsDigit(s[i]))
            && StringToId(s) == id
  {
    var s := IdToString(id);
    if id < 0 {
      var t := NatToString(-id);
      assert s == "-" + t;
      assert s[1..] == t;
      assert forall i :: 0 < i < |s| ==> s[i] == t[i - 1];
      NatToStringRoundTrip(-id);
    } else {
      NatToStringRoundTrip(id);
    }
  }

  /** Distinct identities are written differently. */
  lemma IdToStringInjective(a: int, b: int)
    requires IdToString(a) == IdToString(b)
    ensures a == b
  {
    IdToStringRoundTrip(a);
    IdToStringRoundTrip(b);
  }

  /** In `_x_TO_y_`, no '_' stands at positions 1 to |x| when `x` holds none,
      and a '_' stands at position 1 + |x|. */
  lemma UnderscorePositions(x: string, y: string, k: int)
    ensures '_' !in x && 1 <= k < 1 + |x| ==> ("_" + x + "_TO_" + y + "_")[k] != '_'
    ensures ("_" + x + "_TO_" + y + "_")[1 + |x|] == '_'
  {
  }

  /** Splitting `_x_TO_y_` back into `x` and `y` is unambiguous when `x` holds no '_'. */
  lemma LabelPartsUnique(x: string, y: string, x': string, y': string)
    requires '_' !in x && '_' !in x'
    requires "_" + x + "_TO_" + y + "_" == "_" + x' + "_TO_" + y' + "_"
    ensures x == x' && y == y'
  {
    var l := "_" + x + "_TO_" + y + "_";
    var l' := "_" + x' + "_TO_" + y' + "_";
    if |x| < |x'| {
      UnderscorePositions(x, y, 0);
      UnderscorePositions(x', y', 1 + |x|);
      assert false;
    }
    if |x'| < |x| {
      UnderscorePositions(x', y', 0);
      UnderscorePositions(x, y, 1 + |x'|);
      assert false;
    }
    assert x == l[1..1 + |x|] && x' == l'[1..1 + |x'|];
    assert y == l[5 + |x|..|l| - 1] && y' == l'[5 + |x'|..|l'| - 1];
  }

  /** Distinct pairs of identities get distinct labels, so at most one label
      ever relates a given ordered pair of nodes. */
  lemma RelationshipLabelInjective(a: int, b: int, c: int, d: int)
    requires RelationshipLabel(a, b) == RelationshipLabel(c, d)
    ensures a == c && b == d
  {
    LabelPartsUnique(IdToString(a), IdToString(b), IdToString(c), IdToString(d));
    IdToStringInjective(a, c);
    IdToStringInjective(b, d);
  }
}
