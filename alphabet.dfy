/** The fixed 128-symbol alphabet, `asciiChars` in both scripts. */
module Alphabet {

  /** Number of symbols: the codes 0 through 127. */
  const Size: nat := 128

  /** `asciiChars`: entry i is the character whose code is i. */
  function AsciiChars(): (a: seq<char>)
    ensures |a| == Size
    ensures forall i :: 0 <= i < Size ==> a[i] as int == i
  {
    seq(Size, i requires 0 <= i < Size => i as char)
  }

  /** Every alphabet member has a code below Size, and that code is its position. */
  lemma {:induction false} AlphabetMembers(c: char)
    ensures c in AsciiChars() <==> c as int < Size
    ensures c in AsciiChars() ==> AsciiChars()[c as int] == c
  {
    var a := AsciiChars();
    if c as int < Size {
      assert a[c as int] as int == c as int;
    }
  }
}
