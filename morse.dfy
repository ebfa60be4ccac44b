/**
 The letter table of International Morse Code (ITU-R Recommendation M.1677-1,
 section 1.1.1, letters only) and the decoder's lookup in it, which falls back
 to '?' for any code the table does not hold.
 */
module Morse {

  /** A Morse symbol: a dot or a dash. */
  predicate IsSymbol(c: char) {
    c == '.' || c == '-'
  }

  /** An upper-case Latin letter, the only values of the table. */
  predicate IsLetter(c: char) {
    'A' <= c <= 'Z'
  }

  /** The code-to-letter table, key for key as the program declares it. */
  const Table: map<string, char> := map[
    ".-" := 'A', "-..." := 'B', "-.-." := 'C',
    "-.." := 'D', "." := 'E', "..-." := 'F',
    "--." := 'G', "...." := 'H', ".." := 'I',
    ".---" := 'J', "-.-" := 'K', ".-.." := 'L',
    "--" := 'M', "-." := 'N', "---" := 'O',
    ".--." := 'P', "--.-" := 'Q', ".-." := 'R',
    "..." := 'S', "-" := 'T', "..-" := 'U',
    "...-" := 'V', ".--" := 'W', "-..-" := 'X',
    "-.--" := 'Y', "--.." := 'Z'
  ]

  /** The dictionary lookup with its default: never fails, '?' for an unknown code. */
  function Lookup(code: string): (r: char)
    ensures IsLetter(r) || r == '?'
    ensures r == '?' <==> code !in Table
  {
    if code in Table then Table[code] else '?'
  }

  /** The code a sender blinks for a letter: the inverse of the table. */
  function Encode(letter: char): (code: string)
    requires IsLetter(letter)
    ensures 1 <= |code| <= 4
    ensures forall i :: 0 <= i < |code| ==> IsSymbol(code[i])
  {
    match letter
    case 'A' => ".-"
    case 'B' => "-..."
    case 'C' => "-.-."
    case 'D' => "-.."
    case 'E' => "."
    case 'F' => "..-."
    case 'G' => "--."
    case 'H' => "...."
    case 'I' => ".."
    case 'J' => ".---"
    case 'K' => "-.-"
    case 'L' => ".-.."
    case 'M' => "--"
    case 'N' => "-."
    case 'O' => "---"
    case 'P' => ".--."
    case 'Q' => "--.-"
    case 'R' => ".-."
    case 'S' => "..."
    case 'T' => "-"
    case 'U' => "..-"
    case 'V' => "...-"
    case 'W' => ".--"
    case 'X' => "-..-"
    case 'Y' => "-.--"
    case _ => "--.."
  }

  /** Decoding an encoded letter gives the letter back. */
  lemma LookupEncode(letter: char)
    requires IsLetter(letter)
    ensures Encode(letter) in Table && Table[Encode(letter)] == letter
    ensures Lookup(Encode(letter)) == letter
  {
  }

  /** Every code of the table is the encoding of its letter, so the table is one-to-one. */
  lemma EncodeLookup(code: string)
    requires code in Table
    ensures IsLetter(Lookup(code)) && Encode(Lookup(code)) == code
  {
  }

  /** Every letter A to Z has a code, and every code is 1 to 4 dots and dashes. */
  lemma TableShape()
    ensures forall letter :: IsLetter(letter) ==> exists code :: code in Table && Table[code] == letter
    ensures forall code :: code in Table ==> 1 <= |code| <= 4
    ensures forall code, i :: code in Table && 0 <= i < |code| ==> IsSymbol(code[i])
  {
    forall letter | IsLetter(letter)
      ensures exists code :: code in Table && Table[code] == letter
    {
      LookupEncode(letter);
    }
    forall code | code in Table
      ensures 1 <= |code| <= 4 && forall i :: 0 <= i < |code| ==> IsSymbol(code[i])
    {
      EncodeLookup(code);
    }
  }

  /** A code that is too long for the table decodes to '?' rather than failing. */
  lemma UnknownCode()
    ensures Lookup("......") == '?'
    ensures Lookup("") == '?'
  {
  }
}
