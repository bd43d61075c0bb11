// The card value type: a suit letter and a value string, ordered by suit rank
// first and by value rank within a suit.

module Cards {

  /** A playing card as the source stores it: a suit character and a value string. */
  datatype Card = Card(suit: char, value: string)

  /** The suit letters in increasing rank: clubs, diamonds, spades, hearts. */
  const Suits: string := "cdsh"

  /** The value strings in increasing rank; the rank of Values[i] is i + 1. */
  const Values: seq<string> := ["a", "2", "3", "4", "5", "6", "7", "8", "9", "10", "j", "q", "k"]

  /** Rank of a suit letter: 0 to 3 for the four suits, -1 for any other character. */
  function SuitRank(s: char): (r: int)
    ensures -1 <= r < |Suits|
  {
    match s
    case 'c' => 0
    case 'd' => 1
    case 's' => 2
    case 'h' => 3
    case _ => -1
  }

  /** The value strings a card can carry, spelled out letter by letter (they are exactly the
      members of Values, as ValuesSpelledOut shows). */
  predicate IsValue(v: string) {
    (|v| == 1 && (v[0] == 'a' || v[0] == 'j' || v[0] == 'q' || v[0] == 'k' || '2' <= v[0] <= '9')) ||
    (|v| == 2 && v[0] == '1' && v[1] == '0')
  }

  /** The number a string of decimal digits denotes: the part of the library string-to-int
      conversion that the value ranking relies on. */
  function Decimal(s: string): int {
    if s == [] then 0 else Decimal(s[..|s| - 1]) * 10 + (s[|s| - 1] as int - '0' as int)
  }

  /** The decimal numeral of n, most significant digit first. */
  function Numeral(n: nat): (s: string)
    ensures |s| > 0
    ensures forall i :: 0 <= i < |s| ==> '0' <= s[i] <= '9'
  {
    if n < 10 then [('0' as int + n) as char] else Numeral(n / 10) + [('0' as int + n % 10) as char]
  }

  /** Rank of a value string: ace is 1, jack 11, queen 12, king 13 and a numeral its number.
      The source converts the numerals with the library's string-to-int function, so the rank is
      defined only on the value strings a card can carry. */
  function ValueRank(v: string): (r: int)
    requires IsValue(v)
    ensures 1 <= r <= |Values|
  {
    if v == "a" then 1
    else if v == "j" then 11
    else if v == "q" then 12
    else if v == "k" then 13
    else NumeralRank(v); Decimal(v)
  }

  /** The numeral value strings convert to 2 to 10. */
  lemma NumeralRank(v: string)
    requires IsValue(v) && v != "a" && v != "j" && v != "q" && v != "k"
    ensures Decimal(v) == if |v| == 2 then 10 else v[0] as int - '0' as int
    ensures 2 <= Decimal(v) <= 10
  {
    if |v| == 1 {
      assert v[..0] == [];
    } else {
      var p := v[..1];
      assert p == ['1'] && p[..0] == [];
      assert Decimal(p) == 1;
      assert v[..|v| - 1] == p;
    }
  }

  /** A card as the source expects it: one of the four suit letters and one of the value
      strings. */
  predicate IsValid(c: Card) {
    (c.suit == 'c' || c.suit == 'd' || c.suit == 's' || c.suit == 'h') && IsValue(c.value)
  }

  /** The cards on which the comparison is a strict total order; only these are stored in a tree. */
  type ValidCard = c: Card | IsValid(c) witness Card('c', "a")

  /** Whether a < b is defined: the value ranks are consulted only when the suit ranks tie. */
  predicate Comparable(a: Card, b: Card) {
    SuitRank(a.suit) == SuitRank(b.suit) ==> IsValue(a.value) && IsValue(b.value)
  }

  /** operator<: suit rank first, value rank only between cards of equal suit rank. */
  predicate Less(a: Card, b: Card)
    requires Comparable(a, b)
  {
    var sa, sb := SuitRank(a.suit), SuitRank(b.suit);
    if sa != sb then sa < sb else ValueRank(a.value) < ValueRank(b.value)
  }

  /** operator>: the converse of operator<. */
  predicate Greater(a: Card, b: Card)
    requires Comparable(b, a)
  {
    Less(b, a)
  }

  /** operator==: same suit character and same value string. */
  predicate Equal(a: Card, b: Card) {
    a.suit == b.suit && a.value == b.value
  }

  predicate LessEq(a: Card, b: Card)
    requires Comparable(a, b)
  {
    Less(a, b) || Equal(a, b)
  }

  predicate GreaterEq(a: Card, b: Card)
    requires Comparable(b, a)
  {
    Greater(a, b) || Equal(a, b)
  }

  predicate NotEqual(a: Card, b: Card) {
    !Equal(a, b)
  }

  /** The suit rank of a letter is its position in Suits; every other character ranks -1. */
  lemma SuitRankIsPosition(s: char)
    ensures SuitRank(s) == -1 <==> s !in Suits
    ensures 0 <= SuitRank(s) ==> Suits[SuitRank(s)] == s
  {
  }

  /** The value strings are exactly the members of Values, and the rank of each is one more
      than its position there. */
  lemma {:induction false} ValueRankIsPosition(v: string)
    ensures IsValue(v) <==> v in Values
    ensures IsValue(v) ==> Values[ValueRank(v) - 1] == v
  {
    if IsValue(v) && |v| == 1 {
      assert v == [v[0]];
      if '2' <= v[0] <= '9' {
        NumeralRank(v);
        var d := v[0] as int - '0' as int;
        assert Values[d - 1] == [('0' as int + d) as char];
      }
    } else if IsValue(v) {
      assert v == "10";
    }
    if v in Values {
      var i :| 0 <= i < |Values| && Values[i] == v;
      assert IsValue(Values[i]);
    }
  }

  /** A valid card is one whose suit is in Suits and whose value is in Values. */
  lemma ValidSpelledOut(c: Card)
    ensures IsValid(c) <==> c.suit in Suits && c.value in Values
  {
    ValueRankIsPosition(c.value);
  }

  /** Reading a numeral back gives the number it was written from. */
  lemma {:induction false} DecimalOfNumeral(n: nat)
    ensures Decimal(Numeral(n)) == n
  {
    var s := Numeral(n);
    if n >= 10 {
      DecimalOfNumeral(n / 10);
      assert s[..|s| - 1] == Numeral(n / 10);
    }
  }

  /** The numerals 2 to 10 rank as their own number, the letters as 1, 11, 12 and 13. */
  lemma ValueRanks(n: nat)
    requires 2 <= n <= 10
    ensures IsValue(Numeral(n)) && ValueRank(Numeral(n)) == n
    ensures ValueRank("a") == 1 && ValueRank("j") == 11 && ValueRank("q") == 12 && ValueRank("k") == 13
  {
    DecimalOfNumeral(n);
    if n == 10 {
      assert Numeral(n) == Values[9];
    } else {
      assert Numeral(n) == [('0' as int + n) as char];
      assert Numeral(n) == Values[n - 1];
    }
  }

  /** operator== is value equality of cards. */
  lemma EqualIsIdentity(a: Card, b: Card)
    ensures Equal(a, b) <==> a == b
    ensures NotEqual(a, b) <==> a != b
  {
  }

  /** On valid cards operator< is a strict total order whose ties are exactly the equal cards. */
  lemma LessIsStrictTotalOrder(a: ValidCard, b: ValidCard, c: ValidCard)
    ensures !Less(a, a)
    ensures Less(a, b) && Less(b, c) ==> Less(a, c)
    ensures Less(a, b) ==> !Less(b, a)
    ensures !Less(a, b) && !Less(b, a) <==> a == b
  {
    ValueRankIsPosition(a.value);
    ValueRankIsPosition(b.value);
  }

  /** The derived operators agree with operator< and operator== on valid cards: exactly one of
      a < b, a == b, a > b holds. */
  lemma DerivedComparisons(a: ValidCard, b: ValidCard)
    ensures Greater(a, b) <==> Less(b, a)
    ensures LessEq(a, b) <==> !Greater(a, b)
    ensures GreaterEq(a, b) <==> !Less(a, b)
    ensures NotEqual(a, b) <==> Less(a, b) || Greater(a, b)
    ensures Equal(a, b) ==> !Greater(a, b) && !Less(a, b)
  {
    LessIsStrictTotalOrder(a, b, b);
  }

  /** Two different unknown suit letters both rank -1, so such cards tie without being equal:
      this is why a tree holds only valid cards. */
  lemma UnknownSuitsTie()
    ensures var a, b := Card('x', "a"), Card('y', "a");
      !Less(a, b) && !Less(b, a) && !Equal(a, b)
  {
  }
}
