/** `validateInputString` (utils/validation.ts): a left-to-right check that
    every input character is an alphabet symbol. The simulator performs the
    same check before it starts. */
module InputValidation {
  import opened Wrappers
  import opened Collections

  /** `alphabet.includes(char)`: the alphabet holds the one-character
      string made of `c`. */
  predicate InAlphabet(c: char, alphabet: seq<string>) {
    [c] in alphabet
  }

  predicate Foreign(alphabet: seq<string>, c: char) {
    !InAlphabet(c, alphabet)
  }

  /** Position of the leftmost input character outside the alphabet. */
  function FirstForeignIndex(input: string, alphabet: seq<string>): (r: Option<nat>)
    ensures r.None? <==> forall i :: 0 <= i < |input| ==> InAlphabet(input[i], alphabet)
    ensures r.Some? ==> r.value < |input| && !InAlphabet(input[r.value], alphabet)
    ensures r.Some? ==> forall j :: 0 <= j < r.value ==> InAlphabet(input[j], alphabet)
  {
    FindIndex(input, (c: char) => Foreign(alphabet, c))
  }

  /** The message of a failed check names the symbol and the alphabet. */
  datatype InputError = NotInAlphabet(symbol: char, alphabet: seq<string>)

  datatype InputCheck = InputCheck(isValid: bool, error: Option<InputError>, invalidSymbol: Option<char>)

  /** Valid exactly when every character is an alphabet symbol (so the empty
      input is always valid). A failure carries the leftmost offending
      character both in the error and as `invalidSymbol`; a success carries
      neither. */
  method ValidateInputString(input: string, alphabet: seq<string>) returns (r: InputCheck)
    ensures r.isValid <==> forall i :: 0 <= i < |input| ==> InAlphabet(input[i], alphabet)
    ensures r.isValid <==> FirstForeignIndex(input, alphabet).None?
    ensures |input| == 0 ==> r.isValid
    ensures r.isValid ==> r.error.None? && r.invalidSymbol.None?
    ensures !r.isValid ==> exists k :: (0 <= k < |input|
      && !InAlphabet(input[k], alphabet)
      && (forall j :: 0 <= j < k ==> InAlphabet(input[j], alphabet))
      && r.invalidSymbol == Some(input[k])
      && r.error == Some(NotInAlphabet(input[k], alphabet)))
  {
    for i := 0 to |input|
      invariant forall j :: 0 <= j < i ==> InAlphabet(input[j], alphabet)
    {
      if !InAlphabet(input[i], alphabet) {
        return InputCheck(false, Some(NotInAlphabet(input[i], alphabet)), Some(input[i]));
      }
    }
    return InputCheck(true, None, None);
  }
}
