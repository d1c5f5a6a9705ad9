/**
 * `sliceWords` from the prompt modal: the title shows a prompt cut down to
 * a number of space-separated words, with `...` appended when it was cut.
 */
module PromptModal {
  import opened JsStrings

  /** The modal title shows at most this many words of the prompt. */
  const TitleWords := 6

  const Ellipsis := "..."

  /**
   * Where `array.slice(0, end)` stops on an array of length `n`: a negative
   * `end` counts back from the end of the array.
   */
  function SliceEnd(n: nat, end: int): (r: nat)
    ensures r <= n
    ensures 0 <= end ==> r == if end < n then end else n
    ensures end < 0 ==> r == if n + end < 0 then 0 else n + end
  {
    if end < 0 then (if n + end < 0 then 0 else n + end)
    else if end < n then end else n
  }

  /** The words `sliceWords` counts: the pieces of `text.split(" ")`. */
  function Words(text: string): (ws: seq<string>)
    ensures |ws| >= 1
    ensures forall i :: 0 <= i < |ws| ==> ' ' !in ws[i]
    ensures Join(ws, " ") == text
  {
    SplitPiecesLackChar(text, ' ');
    JoinSplit(text, " ");
    SplitOn(text, " ")
  }

  /** `sliceWords(text, maxWords)` */
  function SliceWords(text: string, maxWords: int): (r: string)
    ensures r == text || (|r| >= 3 && r[|r| - 3..] == Ellipsis)
  {
    var words := Words(text);
    if |words| <= maxWords then text
    else Join(words[..SliceEnd(|words|, maxWords)], " ") + Ellipsis
  }

  /** A text of at most `maxWords` words is shown as it is. */
  lemma ShortTextUnchanged(text: string, maxWords: int)
    requires |Words(text)| <= maxWords
    ensures SliceWords(text, maxWords) == text
  {
  }

  /** A longer text is shown as one of its prefixes followed by `...`. */
  lemma TruncatedIsPrefix(text: string, maxWords: int)
    requires |Words(text)| > maxWords
    ensures var r := SliceWords(text, maxWords);
            |r| >= 3 && r[|r| - 3..] == Ellipsis && StartsWith(text, r[..|r| - 3])
  {
    var words := Words(text);
    var m := SliceEnd(|words|, maxWords);
    JoinPrefix(words, m, " ");
    var r := SliceWords(text, maxWords);
    assert r == Join(words[..m], " ") + Ellipsis;
    assert r[..|r| - 3] == Join(words[..m], " ");
  }

  /**
   * For `maxWords >= 1`, a cut text consists of exactly the first
   * `maxWords` words, the last of them carrying the `...`.
   */
  lemma TruncatedWords(text: string, maxWords: int)
    requires maxWords >= 1 && |Words(text)| > maxWords
    ensures var words := Words(text);
            Words(SliceWords(text, maxWords)) == words[..maxWords - 1] + [words[maxWords - 1] + Ellipsis]
  {
    var words := Words(text);
    var kept := words[..maxWords];
    var ws := words[..maxWords - 1] + [words[maxWords - 1] + Ellipsis];
    assert kept[..|kept| - 1] == words[..maxWords - 1];
    JoinExtendLast(kept, Ellipsis, " ");
    assert Join(ws, " ") == SliceWords(text, maxWords);
    forall i | 0 <= i < |ws|
      ensures ' ' !in ws[i]
    {
      if i == maxWords - 1 {
        assert ' ' !in words[i];
        assert ws[i] == words[i] + Ellipsis;
      } else {
        assert ws[i] == words[i];
      }
    }
    SplitJoinChar(ws, ' ');
  }

  /** For `maxWords >= 0`, cutting a cut text changes nothing. */
  lemma SliceWordsIdempotent(text: string, maxWords: int)
    requires maxWords >= 0
    ensures SliceWords(SliceWords(text, maxWords), maxWords) == SliceWords(text, maxWords)
  {
    if |Words(text)| > maxWords {
      if maxWords == 0 {
        assert SliceWords(text, 0) == Ellipsis;
        assert Words(Ellipsis) == [Ellipsis] by {
          MissingCharNotIncluded(Ellipsis, " ", ' ');
        }
      } else {
        TruncatedWords(text, maxWords);
      }
    }
  }

  /** The modal title. */
  function ModalTitle(prompt: string): (r: string)
    ensures |Words(r)| <= TitleWords
    ensures |Words(prompt)| <= TitleWords ==> r == prompt
  {
    if |Words(prompt)| > TitleWords then TruncatedWords(prompt, TitleWords); SliceWords(prompt, TitleWords)
    else SliceWords(prompt, TitleWords)
  }

  /** The words of `a + " " + b` when `a` has no space: `a`, then the words of `b`. */
  lemma WordsAfterFirstSpace(a: string, b: string)
    requires ' ' !in a
    ensures Words(a + " " + b) == [a] + Words(b)
  {
    var s := a + " " + b;
    IndexOfChar(a, ' ', b);
    assert s[..|a|] == a;
    assert s[|a| + 1..] == b;
  }

  /** A text without a space is one word. */
  lemma OneWord(a: string)
    requires ' ' !in a
    ensures Words(a) == [a]
  {
    MissingCharNotIncluded(a, " ", ' ');
  }

  // The example texts below are written as concatenations of their words,
  // the form `WordsAfterFirstSpace` takes; a single literal would make the
  // verifier evaluate `IndexOf` on it character by character.

  /** Two spaces in a row make an empty word that counts towards the limit. */
  lemma EmptyWordsCount()
    ensures SliceWords("a" + " " + ("" + " " + "b"), 2) == "a" + " " + "" + Ellipsis
  {
    WordsAfterFirstSpace("a", "" + " " + "b");
    WordsAfterFirstSpace("", "b");
    OneWord("b");
    var words := Words("a" + " " + ("" + " " + "b"));
    assert words == ["a", "", "b"];
    assert words[..2] == ["a", ""];
    assert ["a", ""][1..] == [""];
    assert Join(["a", ""], " ") == "a" + " " + "";
  }

  /** With a negative limit a cut text is cut again: `"a b c"` with `-1` gives `"a b..."`, which gives `"a..."`. */
  lemma NegativeLimitNotIdempotent()
    ensures SliceWords("a" + " " + ("b" + " " + "c"), -1) == "a" + " " + "b" + Ellipsis
    ensures SliceWords("a" + " " + ("b" + Ellipsis), -1) == "a" + Ellipsis
  {
    WordsAfterFirstSpace("a", "b" + " " + "c");
    WordsAfterFirstSpace("b", "c");
    OneWord("c");
    var words := Words("a" + " " + ("b" + " " + "c"));
    assert words == ["a", "b", "c"];
    assert words[..2] == ["a", "b"];
    assert ["a", "b"][1..] == ["b"];
    assert Join(["a", "b"], " ") == "a" + " " + "b";
    WordsAfterFirstSpace("a", "b" + Ellipsis);
    OneWord("b" + Ellipsis);
    var words2 := Words("a" + " " + ("b" + Ellipsis));
    assert words2 == ["a", "b" + Ellipsis];
    assert words2[..1] == ["a"];
  }
}
