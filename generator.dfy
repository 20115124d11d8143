/**
 * The password generator of main.cpp: twenty characters, each picked by index
 * from a fixed 93-character alphabet, the index drawn from libsodium's
 * `randombytes_uniform`.
 */
module Generator {

  /** Number of characters in a generated password (the `LENGTH` macro). */
  const Length: nat := 20

  /** The alphabet literal of `generate_password`, without its terminating NUL,
      written as its four runs: lower case, upper case, digits, punctuation. */
  const Characters: string := Lower + Upper + Digits + Symbols

  const Lower: string := "abcdefghijklmnopqrstuvwxyz"
  const Upper: string := "ABCDEFGHIJKLMNOPQRSTUVWXYZ"
  const Digits: string := "1234567890"
  const Symbols: string := "~`!@#$%^&*()-_=+[{]}\\;:'\"/?.>,<"

  /** The C array `characters[]` initialised from that literal: the literal followed by NUL. */
  const CharArray: seq<char> := Characters + ['\0']

  /** `sizeof(characters) - 1`: the array size without the NUL terminator. */
  const CharSize: nat := |CharArray| - 1

  /** The alphabet has 93 characters, and `char_size` counts exactly those. */
  lemma AlphabetSize()
    ensures |Characters| == 93 && CharSize == |Characters|
  {
  }

  /** The array holds the alphabet in its first `char_size` slots and NUL in the one after. */
  lemma ArrayIsNulTerminated()
    ensures |CharArray| == CharSize + 1 && CharArray[CharSize] == '\0'
    ensures forall k :: 0 <= k < CharSize ==> CharArray[k] == Characters[k]
  {
  }

  // Each run of the literal is free of NUL; checked run by run, which keeps
  // every proof obligation small.
  lemma LowerHasNoNul()
    ensures '\0' !in Lower
  {
  }

  lemma UpperHasNoNul()
    ensures '\0' !in Upper
  {
  }

  lemma DigitsHaveNoNul()
    ensures '\0' !in Digits
  {
  }

  lemma SymbolsHaveNoNul()
    ensures '\0' !in Symbols
  {
  }

  /** The NUL terminator is not one of the alphabet's characters. */
  lemma NulNotInAlphabet()
    ensures '\0' !in Characters
  {
    LowerHasNoNul();
    UpperHasNoNul();
    DigitsHaveNoNul();
    SymbolsHaveNoNul();
  }

  /**
   * The range contract of `randombytes_uniform(upper_bound)`: a value in
   * `[0, upper_bound)`, and 0 when the bound is below 2. `raw` stands for the
   * entropy the library consumes; reducing it modulo the bound is a stand-in
   * that meets the range contract, not libsodium's rejection sampling.
   */
  function RandomBytesUniform(raw: nat, upperBound: nat): (r: nat)
    ensures upperBound > 0 ==> r < upperBound
    ensures upperBound < 2 ==> r == 0
  {
    if upperBound < 2 then 0 else raw % upperBound
  }

  /** One loop iteration: `characters[randombytes_uniform(char_size)]`. */
  function Pick(raw: nat): char
  {
    CharArray[RandomBytesUniform(raw, CharSize)]
  }

  /** The index drawn is below `char_size`, so the character picked is one of
      the alphabet's and never the NUL terminator. */
  lemma PickInAlphabet(raw: nat)
    ensures Pick(raw) in Characters && Pick(raw) != '\0'
  {
    ArrayIsNulTerminated();
    NulNotInAlphabet();
    assert CharArray[RandomBytesUniform(raw, CharSize)] == Characters[RandomBytesUniform(raw, CharSize)];
  }

  /**
   * The first `n` characters a generator appends when the i-th call to the
   * random source consumes `entropy(i)`.
   */
  function PasswordFrom(entropy: nat -> nat, n: nat): (p: string)
    ensures |p| == n
  {
    if n == 0 then [] else PasswordFrom(entropy, n - 1) + [Pick(entropy(n - 1))]
  }

  /** The k-th character of the password is the one picked by the k-th draw;
      appending never disturbs the characters already there. */
  lemma {:induction false} PasswordFromPicks(entropy: nat -> nat, n: nat)
    ensures forall k :: 0 <= k < n ==> PasswordFrom(entropy, n)[k] == Pick(entropy(k))
  {
    if n > 0 {
      PasswordFromPicks(entropy, n - 1);
    }
  }

  /** Every character of `p` is one of `alphabet`'s, stated character by character. */
  predicate FromAlphabet(p: string, alphabet: string)
  {
    p == [] || (p[0] in alphabet && FromAlphabet(p[1..], alphabet))
  }

  /** The recursive statement agrees with the pointwise one, in both directions. */
  lemma {:induction false} FromAlphabetPointwise(p: string, alphabet: string)
    ensures FromAlphabet(p, alphabet) <==> forall k :: 0 <= k < |p| ==> p[k] in alphabet
  {
    if p != [] {
      FromAlphabetPointwise(p[1..], alphabet);
      assert forall k :: 1 <= k < |p| ==> p[k] == p[1..][k - 1];
    }
  }

  /** A string of the generator's shape: `Length` characters, all from the alphabet. */
  predicate IsGeneratedShape(p: string)
  {
    |p| == Length && FromAlphabet(p, Characters)
  }

  /** `generate_password`: append one picked character per iteration, `Length` times. */
  method GeneratePassword(entropy: nat -> nat) returns (password: string)
    ensures password == PasswordFrom(entropy, Length)
    ensures |password| == Length
  {
    password := "";
    for i := 0 to Length
      invariant password == PasswordFrom(entropy, i)
    {
      var num := RandomBytesUniform(entropy(i), CharSize);
      password := password + [CharArray[num]];
    }
  }

  /** Every generated password has the generator's shape, whatever the
      entropy, and so never contains the NUL terminator. */
  lemma GeneratedHasShape(entropy: nat -> nat)
    ensures IsGeneratedShape(PasswordFrom(entropy, Length))
    ensures '\0' !in PasswordFrom(entropy, Length)
  {
    var p := PasswordFrom(entropy, Length);
    PasswordFromPicks(entropy, Length);
    forall k | 0 <= k < |p|
      ensures p[k] in Characters && p[k] != '\0'
    {
      PickInAlphabet(entropy(k));
    }
    FromAlphabetPointwise(p, Characters);
  }
}
