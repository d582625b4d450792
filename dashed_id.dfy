/**
 * Meeting ids of the form `abcdef-ghij-klm`: three runs of random lower-case
 * letters, six, four and three long, joined by dashes. `Math.random()` is a
 * parameter: `draws` holds the values it returns, one per letter, in order.
 */
module DashedId {
  import opened Common

  const Characters := "abcdefghijklmnopqrstuvwxyz"

  /** Every value in `draws` is one `Math.random()` could return. */
  predicate ValidDraws(draws: seq<real>) {
    forall k | 0 <= k < |draws| :: 0.0 <= draws[k] < 1.0
  }

  lemma CharactersAreLetters()
    ensures |Characters| == 26
    ensures forall i | 0 <= i < 26 :: Characters[i] as int == 'a' as int + i
  {
  }

  /** `characters[Math.floor(r * characters.length)]` */
  function Letter(r: real): (c: char)
    requires 0.0 <= r < 1.0
    ensures 'a' <= c <= 'z'
    ensures c as int - 'a' as int == Pick(r, 26)
  {
    CharactersAreLetters();
    Characters[Pick(r, 26)]
  }

  /** The letters the draws select, one per draw. */
  function Letters(draws: seq<real>): (s: string)
    requires ValidDraws(draws)
    ensures |s| == |draws|
    ensures forall k | 0 <= k < |s| :: s[k] == Letter(draws[k])
  {
    seq(|draws|, k requires 0 <= k < |draws| && ValidDraws(draws) => Letter(draws[k]))
  }

  /** The id the thirteen draws produce. */
  function Dashed(draws: seq<real>): string
    requires |draws| == 13 && ValidDraws(draws)
  {
    Letters(draws[..6]) + "-" + Letters(draws[6..10]) + "-" + Letters(draws[10..])
  }

  /** `generateRandomString(length)`: appends one drawn letter per round. */
  method GenerateRandomString(length: nat, draws: seq<real>) returns (result: string)
    requires |draws| == length && ValidDraws(draws)
    ensures |result| == length
    ensures forall k | 0 <= k < |result| :: 'a' <= result[k] <= 'z'
    ensures result == Letters(draws)
  {
    result := "";
    var i := 0;
    while i < length
      invariant 0 <= i <= length
      invariant |result| == i
      invariant forall k | 0 <= k < i :: result[k] == Letter(draws[k])
    {
      var randomIndex := Pick(draws[i], |Characters|);
      result := result + [Characters[randomIndex]];
      i := i + 1;
    }
  }

  /** `generateDashedId()`: the three parts joined by dashes. */
  method GenerateDashedId(draws: seq<real>) returns (id: string)
    requires |draws| == 13 && ValidDraws(draws)
    ensures id == Dashed(draws)
    ensures |id| == 15
    ensures id[..6] == Letters(draws[..6])
    ensures id[7..11] == Letters(draws[6..10])
    ensures id[12..] == Letters(draws[10..])
  {
    var firstPart := GenerateRandomString(6, draws[..6]);
    var secondPart := GenerateRandomString(4, draws[6..10]);
    var thirdPart := GenerateRandomString(3, draws[10..]);
    id := firstPart + "-" + secondPart + "-" + thirdPart;
    assert id[..6] == firstPart;
    assert id[7..11] == secondPart;
    assert id[12..] == thirdPart;
  }

  /** Dashes stand at positions 6 and 11 and nowhere else; every other character is a letter. */
  lemma DashesExactlyAtSixAndEleven(draws: seq<real>)
    requires |draws| == 13 && ValidDraws(draws)
    ensures |Dashed(draws)| == 15
    ensures forall k | 0 <= k < 15 :: Dashed(draws)[k] == '-' <==> k == 6 || k == 11
    ensures forall k | 0 <= k < 15 && k != 6 && k != 11 :: 'a' <= Dashed(draws)[k] <= 'z'
  {
    var a, b, c := Letters(draws[..6]), Letters(draws[6..10]), Letters(draws[10..]);
    var id := Dashed(draws);
    assert id == a + "-" + b + "-" + c;
    forall k | 0 <= k < 15
      ensures id[k] == '-' <==> k == 6 || k == 11
      ensures k != 6 && k != 11 ==> 'a' <= id[k] <= 'z'
    {
      if k < 6 {
        assert id[k] == a[k];
      } else if 6 < k < 11 {
        assert id[k] == b[k - 7];
      } else if 11 < k {
        assert id[k] == c[k - 12];
      }
    }
  }

  /** Each letter of the id is the one its own draw selects. */
  lemma DashedLetterFromDraw(draws: seq<real>, k: nat)
    requires |draws| == 13 && ValidDraws(draws) && k < 13
    ensures Dashed(draws)[if k < 6 then k else if k < 10 then k + 1 else k + 2] == Letter(draws[k])
  {
    var a, b, c := Letters(draws[..6]), Letters(draws[6..10]), Letters(draws[10..]);
    var id := Dashed(draws);
    assert id == a + "-" + b + "-" + c;
    if k < 6 {
      assert id[k] == a[k];
    } else if k < 10 {
      assert id[k + 1] == b[k - 6];
    } else {
      assert id[k + 2] == c[k - 10];
    }
  }
}
