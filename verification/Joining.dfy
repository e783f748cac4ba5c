/** Words joined by a separator, and the text taken apart again. */
module Joining {
  function Join(separator: char, words: seq<string>): string {
    if |words| == 0 then "" else if |words| == 1 then words[0] else words[0] + [separator] + Join(separator, words[1..])
  }

  /** What lies between the separators of a text. */
  function Pieces(separator: char, text: string): (pieces: seq<string>)
    ensures |pieces| > 0
  {
    if |text| == 0 then [""]
    else
      var rest := Pieces(separator, text[1..]);
      if text[0] == separator then [""] + rest else [[text[0]] + rest[0]] + rest[1..]
  }

  lemma {:induction false} PiecesOfWord(separator: char, word: string, text: string)
    requires separator !in word
    ensures Pieces(separator, word + text) == [word + Pieces(separator, text)[0]] + Pieces(separator, text)[1..]
  {
    var rest := Pieces(separator, text);
    if |word| == 0 {
      assert word + text == text && [rest[0]] + rest[1..] == rest && word + rest[0] == rest[0];
    } else {
      assert (word + text)[1..] == word[1..] + text && (word + text)[0] == word[0];
      PiecesOfWord(separator, word[1..], text);
      assert [word[0]] + (word[1..] + rest[0]) == word + rest[0];
    }
  }

  /** Words without the separator are the pieces of the text they are joined to. */
  lemma {:induction false} PiecesOfJoin(separator: char, words: seq<string>)
    requires |words| > 0 && forall i :: 0 <= i < |words| ==> separator !in words[i]
    ensures Pieces(separator, Join(separator, words)) == words
  {
    var text := if |words| == 1 then "" else [separator] + Join(separator, words[1..]);
    assert Join(separator, words) == words[0] + text;
    PiecesOfWord(separator, words[0], text);
    assert words[0] + "" == words[0];
    if |words| == 1 {
      assert words == [words[0]];
    } else {
      PiecesOfJoin(separator, words[1..]);
      assert text[1..] == Join(separator, words[1..]) && text[0] == separator;
      assert words == [words[0]] + words[1..];
    }
  }
}
