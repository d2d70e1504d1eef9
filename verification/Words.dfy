/** Collapsing white space: what remains are the words, one blank between any two. */
module Words {
  import opened Text

  /** Runs of white space replaced by one blank each. */
  function Collapse(s: string): string {
    if s == "" then ""
    else
      var init, last := s[..|s| - 1], s[|s| - 1];
      if !IsSpace(last) then Collapse(init) + [last]
      else if init != "" && IsSpace(init[|init| - 1]) then Collapse(init)
      else Collapse(init) + " "
  }

  predicate EndsInSpace(s: string) { s != "" && IsSpace(s[|s| - 1]) }

  predicate StartsInSpace(s: string) { s != "" && IsSpace(s[0]) }

  /** The maximal runs of characters that are not white space. */
  function WordsOf(s: string): (words: seq<string>)
    ensures s != "" && !EndsInSpace(s) ==> words != []
  {
    if s == "" then []
    else
      var init, last := s[..|s| - 1], s[|s| - 1];
      var words := WordsOf(init);
      if IsSpace(last) then words
      else if init == "" || EndsInSpace(init) then words + [[last]]
      else Grown(words, last)
  }

  /** The words with one blank between any two. */
  function Join(words: seq<string>): string {
    if words == [] then ""
    else if |words| == 1 then words[0]
    else Join(words[..|words| - 1]) + " " + words[|words| - 1]
  }

  predicate Spaceless(s: string) { forall i :: 0 <= i < |s| ==> !IsSpace(s[i]) }

  predicate AreWords(words: seq<string>) {
    forall i :: 0 <= i < |words| ==> words[i] != "" && Spaceless(words[i])
  }

  lemma {:induction false} WordsAreWords(s: string)
    ensures AreWords(WordsOf(s))
  {
    if s != "" {
      WordsAreWords(s[..|s| - 1]);
    }
  }

  lemma {:induction false} JoinEnds(words: seq<string>)
    requires AreWords(words) && words != []
    ensures Join(words) != "" && !StartsInSpace(Join(words)) && !EndsInSpace(Join(words))
  {
    if |words| > 1 {
      JoinEnds(words[..|words| - 1]);
    }
  }

  /** One more character for the last word. */
  function Grown(words: seq<string>, last: char): seq<string>
    requires words != []
  {
    words[..|words| - 1] + [words[|words| - 1] + [last]]
  }

  lemma JoinMore(words: seq<string>, last: char)
    requires words != []
    ensures Join(Grown(words, last)) == Join(words) + [last]
  {
    assert Grown(words, last)[..|words| - 1] == words[..|words| - 1];
  }

  lemma JoinNext(words: seq<string>, word: string)
    ensures Join(words + [word]) == if words == [] then word else Join(words) + " " + word
  {
    assert (words + [word])[..|words|] == words;
  }

  /** The words joined, with a blank before and after as asked; no second blank without words. */
  function Padded(words: seq<string>, before: bool, after: bool): string {
    (if before then " " else "") + Join(words) + (if words != [] && after then " " else "")
  }

  /** The words joined, with a blank before and after where the text starts or ends in white space. */
  function Shape(s: string): string { Padded(WordsOf(s), StartsInSpace(s), EndsInSpace(s)) }

  /** What one more character does to the words. */
  lemma WordsNext(init: string, last: char)
    ensures
      var s := init + [last];
      && EndsInSpace(s) == IsSpace(last)
      && StartsInSpace(s) == (if init == "" then IsSpace(last) else StartsInSpace(init))
      && (init != "" && !EndsInSpace(init) ==> WordsOf(init) != [])
      && WordsOf(s) ==
           if IsSpace(last) then WordsOf(init)
           else if init == "" || EndsInSpace(init) then WordsOf(init) + [[last]]
           else Grown(WordsOf(init), last)
  {
    assert (init + [last])[..|init|] == init;
  }

  lemma PaddedNewWord(words: seq<string>, before: bool, after: bool, last: char)
    requires words != [] ==> after
    ensures Padded(words + [[last]], before, false) == Padded(words, before, after) + [last]
  {
    JoinNext(words, [last]);
  }

  lemma PaddedMore(words: seq<string>, before: bool, last: char)
    requires words != []
    ensures Padded(Grown(words, last), before, false) == Padded(words, before, false) + [last]
  {
    JoinMore(words, last);
  }

  lemma ShapeWithVisible(init: string, last: char)
    requires !IsSpace(last)
    ensures Shape(init + [last]) == Shape(init) + [last]
  {
    WordsNext(init, last);
    if init == "" || EndsInSpace(init) {
      PaddedNewWord(WordsOf(init), StartsInSpace(init), EndsInSpace(init), last);
    } else {
      PaddedMore(WordsOf(init), StartsInSpace(init), last);
    }
  }

  lemma ShapeWithSpace(init: string, last: char)
    requires IsSpace(last)
    ensures Shape(init + [last]) == if EndsInSpace(init) then Shape(init) else Shape(init) + " "
  {
    WordsNext(init, last);
    AllSpace(init);
  }

  /** Collapsing keeps the words in order, with a blank where there was white space around or between them. */
  lemma {:induction false} CollapseShape(s: string)
    ensures Collapse(s) == Shape(s)
  {
    if s == "" {
      assert Join([]) == "";
    } else {
      var init, last := s[..|s| - 1], s[|s| - 1];
      CollapseShape(init);
      assert s == init + [last];
      if IsSpace(last) {
        ShapeWithSpace(init, last);
      } else {
        ShapeWithVisible(init, last);
      }
    }
  }

  lemma {:induction false} AllSpace(s: string)
    ensures WordsOf(s) == [] && s != "" ==> StartsInSpace(s) && EndsInSpace(s)
  {
    if s != "" {
      AllSpace(s[..|s| - 1]);
    }
  }

  /** Collapsing and stripping leaves exactly the words, joined by single blanks. */
  lemma StripCollapse(s: string)
    ensures Strip(Collapse(s)) == Join(WordsOf(s))
  {
    CollapseShape(s);
    WordsAreWords(s);
    var core := Join(WordsOf(s));
    if WordsOf(s) != [] {
      JoinEnds(WordsOf(s));
      StripEnds(core, StartsInSpace(s), EndsInSpace(s));
    } else {
      assert Strip("") == "" && StripLeft(" ") == StripLeft(" "[1..]);
    }
  }

  lemma StripEnds(core: string, before: bool, after: bool)
    requires core != "" && !StartsInSpace(core) && !EndsInSpace(core)
    ensures Strip((if before then " " else "") + core + (if after then " " else "")) == core
  {
    var tail := core + if after then " " else "";
    assert tail[0] == core[0];
    StripRightTail(core, after);
    assert StripLeft(tail) == tail;
    if before {
      var text := " " + tail;
      assert text[1..] == tail && StripLeft(text) == StripLeft(tail);
      assert " " + core + (if after then " " else "") == text;
    } else {
      assert "" + core + (if after then " " else "") == tail;
    }
  }

  lemma StripRightTail(core: string, after: bool)
    requires core != "" && !EndsInSpace(core)
    ensures StripRight(core + if after then " " else "") == core
  {
    if after {
      assert (core + " ")[..|core|] == core;
    } else {
      assert core + "" == core;
    }
  }

  lemma GrownLast(words: seq<string>, word: string, last: char)
    ensures Grown(words + [word], last) == words + [word + [last]]
  {
    assert (words + [word])[..|words|] == words;
  }

  lemma WordsOfLonger(s: string, word: string, last: char)
    requires word != "" && Spaceless(word + [last]) && WordsOf(s + word) == WordsOf(s) + [word]
    ensures WordsOf(s + (word + [last])) == WordsOf(s) + [word + [last]]
  {
    var longer := word + [last];
    assert longer[|word| - 1] == word[|word| - 1] && longer[|word|] == last;
    assert s + longer == s + word + [last];
    WordsNext(s + word, last);
    GrownLast(WordsOf(s), word, last);
  }

  lemma {:induction false} WordsOfAppend(s: string, word: string)
    requires word != "" && Spaceless(word) && (s == "" || EndsInSpace(s))
    ensures WordsOf(s + word) == WordsOf(s) + [word]
  {
    var init, last := word[..|word| - 1], word[|word| - 1];
    assert word == init + [last];
    if init == "" {
      WordsNext(s, last);
    } else {
      WordsOfAppend(s, init);
      WordsOfLonger(s, init, last);
    }
  }

  lemma WordsOfNext(words: seq<string>, word: string)
    requires AreWords(words) && word != "" && Spaceless(word) && WordsOf(Join(words)) == words
    ensures WordsOf(Join(words + [word])) == words + [word]
  {
    JoinNext(words, word);
    if words == [] {
      assert "" + word == word;
      WordsOfAppend("", word);
    } else {
      WordsNext(Join(words), ' ');
      WordsOfAppend(Join(words) + " ", word);
    }
  }

  /** Joining words and taking the words again gives the same words. */
  lemma {:induction false} WordsOfJoin(words: seq<string>)
    requires AreWords(words)
    ensures WordsOf(Join(words)) == words
  {
    if words != [] {
      var init, last := words[..|words| - 1], words[|words| - 1];
      assert words == init + [last];
      assert AreWords(init);
      WordsOfJoin(init);
      WordsOfNext(init, last);
    }
  }

  /** No white space at either end, only blanks, and never two in a row. */
  predicate Tidy(s: string) {
    forall i :: 0 <= i < |s| && IsSpace(s[i]) ==> s[i] == ' ' && 0 < i < |s| - 1 && !IsSpace(s[i + 1])
  }

  lemma {:induction false} JoinIsTidy(words: seq<string>)
    requires AreWords(words)
    ensures Tidy(Join(words))
  {
    if |words| > 1 {
      var init, last := words[..|words| - 1], words[|words| - 1];
      JoinIsTidy(init);
      JoinEnds(init);
      var head := Join(init);
      var text := head + " " + last;
      assert forall k :: |head| < k < |text| ==> text[k] == last[k - |head| - 1];
      assert forall k :: 0 <= k < |head| ==> text[k] == head[k];
      assert text[|head| + 1] == last[0];
    }
  }

  /** A tidy text is its own words joined. */
  lemma {:induction false} TidyIsJoin(s: string)
    requires Tidy(s)
    ensures Join(WordsOf(s)) == s
  {
    CollapseShape(s);
    TidyCollapse(s);
  }

  lemma {:induction false} TidyCollapse(s: string)
    requires forall i :: 0 <= i < |s| && IsSpace(s[i]) ==> s[i] == ' ' && (i + 1 < |s| ==> !IsSpace(s[i + 1]))
    ensures Collapse(s) == s
  {
    if s != "" {
      TidyCollapse(s[..|s| - 1]);
    }
  }
}
