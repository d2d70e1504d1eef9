/** Sanitizing signal texts. */
module SanitizeContent {
  import opened Common
  import opened Text
  import opened Words

  // The language's character classes, as far as they are not spelled out below.
  datatype Unicode = Unicode(isAlpha: char -> bool, isDigit: char -> bool, isAlnum: char -> bool)

  const EN_DASH := '\U{2013}'
  const EM_DASH := '\U{2014}'
  const ELLIPSIS := '\U{2026}'

  predicate IsZeroWidth(c: char) {
    '\U{200B}' <= c <= '\U{200F}' || '\U{2060}' <= c <= '\U{2064}' || '\U{2066}' <= c <= '\U{2069}' || c == '\U{FEFF}'
  }

  predicate IsAsciiAlnum(c: char) { '0' <= c <= '9' || 'A' <= c <= 'Z' || 'a' <= c <= 'z' }

  /** Alphanumeric are, of ASCII, the letters and digits, and otherwise no white space, no dash, no ellipsis and
      no zero-width character. */
  ghost predicate Sane(u: Unicode) {
    forall c :: u.isAlnum(c) ==>
      && (c < '\U{80}' ==> IsAsciiAlnum(c))
      && !IsSpace(c) && c != EN_DASH && c != EM_DASH && c != ELLIPSIS && !IsZeroWidth(c)
  }

  // ---- The steps ----

  // The quotes of the apostrophe replacement pair up so that this text is what is replaced, by one apostrophe.
  const REPLACED := ", \"'\").replace("

  function ReplaceAll(s: string, part: string, subst: string): string
    requires part != ""
  {
    if |s| < |part| then s
    else if part <= s then subst + ReplaceAll(s[|part|..], part, subst)
    else [s[0]] + ReplaceAll(s[1..], part, subst)
  }

  /** Dashes become hyphens, an ellipsis three dots, zero-width characters vanish. */
  function Substitute(c: char): string {
    if c == EN_DASH || c == EM_DASH then "-"
    else if c == ELLIPSIS then "..."
    else if IsZeroWidth(c) then ""
    else [c]
  }

  function Substituted(s: string): string { FlatMap(Substitute, s) }

  predicate IsCurrency(c: char) {
    c == '\U{20BF}' || c == '$' || c == '\U{20AC}' || c == '\U{A3}' || c == '\U{A5}' || c == '\U{20B9}'
  }

  /** The characters that the first filter lets through. */
  function Kept(u: Unicode): char -> bool {
    (c: char) => c < '\U{80}' || IsCurrency(c) || u.isAlpha(c) || u.isDigit(c) || IsSpace(c)
  }

  predicate IsPunctuation(c: char) { c in ".,-+$%()[]:|/" }

  /** The characters that the pattern lets through. */
  function Allowed(u: Unicode): char -> bool {
    (c: char) => u.isAlnum(c) || c == '_' || IsSpace(c) || IsPunctuation(c)
  }

  /** All steps before white space is dealt with. */
  function Scrubbed(u: Unicode, s: string): string {
    Filter(Allowed(u), Filter(Kept(u), Substituted(ReplaceAll(s, REPLACED, "'"))))
  }

  function Sanitize(u: Unicode, content: string): string {
    if content == "" then "" else Strip(Collapse(Scrubbed(u, content)))
  }

  // ---- What comes out ----

  /** The characters a sanitized text may hold. */
  predicate MayRemain(u: Unicode, c: char) { Kept(u)(c) && Allowed(u)(c) && (IsSpace(c) ==> c == ' ') }

  lemma ScrubbedEmpty(u: Unicode)
    ensures Scrubbed(u, "") == ""
  {
    FilterNone(Kept(u), "");
    FilterNone(Allowed(u), "");
  }

  /** Sanitizing is: clean, cut into words, join by single blanks. */
  lemma SanitizeJoinsWords(u: Unicode, content: string)
    ensures Sanitize(u, content) == Join(WordsOf(Scrubbed(u, content)))
  {
    ScrubbedEmpty(u);
    StripCollapse(Scrubbed(u, content));
  }

  lemma {:induction false} JoinedChars(p: char -> bool, s: string)
    requires forall c :: c in s ==> p(c)
    ensures forall c :: c in Join(WordsOf(s)) ==> c == ' ' || (p(c) && !IsSpace(c))
  {
    if s != "" {
      var init, last := s[..|s| - 1], s[|s| - 1];
      JoinedChars(p, init);
      if !IsSpace(last) {
        if init == "" || EndsInSpace(init) {
          JoinNext(WordsOf(init), [last]);
        } else {
          JoinMore(WordsOf(init), last);
        }
        assert last in s;
      }
    }
  }

  /** Every character of the result may remain, and the result is tidy: no white space at either end, only
      blanks, and never two in a row. */
  lemma SanitizedIsTidy(u: Unicode, content: string)
    ensures forall c :: c in Sanitize(u, content) ==> MayRemain(u, c)
    ensures Tidy(Sanitize(u, content))
  {
    SanitizeJoinsWords(u, content);
    var cleaned := Scrubbed(u, content);
    var kept := Filter(Kept(u), Substituted(ReplaceAll(content, REPLACED, "'")));
    FilterMembers(Kept(u), Substituted(ReplaceAll(content, REPLACED, "'")));
    FilterMembers(Allowed(u), kept);
    JoinedChars(Allowed(u), cleaned);
    JoinedChars(Kept(u), cleaned);
    WordsAreWords(cleaned);
    JoinIsTidy(WordsOf(cleaned));
  }

  /** What a text contains it contains at its start or later on. */
  lemma ContainsFrom(s: string, part: string)
    requires s != ""
    ensures Contains(s, part) <==> part <= s || Contains(s[1..], part)
  {
    assert s[0..] == s;
    forall i | 0 <= i <= |s| - 1
      ensures s[1..][i..] == s[i + 1..]
    {
    }
    if Contains(s, part) && !(part <= s) {
      var i :| 0 <= i <= |s| && part <= s[i..];
      assert s[1..][i - 1..] == s[i..];
    }
  }

  lemma {:induction false} ReplaceAbsent(s: string, part: string, subst: string)
    requires part != "" && !Contains(s, part)
    ensures ReplaceAll(s, part, subst) == s
  {
    if |s| >= |part| {
      ContainsFrom(s, part);
      ReplaceAbsent(s[1..], part, subst);
      assert s == [s[0]] + s[1..];
    }
  }

  lemma ContainsMembers(s: string, part: string)
    requires Contains(s, part)
    ensures forall c :: c in part ==> c in s
  {
    var i :| 0 <= i <= |s| && part <= s[i..];
    forall k | 0 <= k < |part|
      ensures part[k] in s
    {
      assert part[k] == s[i..][k] == s[i + k];
    }
  }

  lemma LacksChar(s: string, part: string, c: char)
    requires c in part && c !in s
    ensures !Contains(s, part)
  {
    if Contains(s, part) {
      ContainsMembers(s, part);
    }
  }

  lemma {:induction false} SubstituteNothing(s: string)
    requires forall c :: c in s ==> Substitute(c) == [c]
    ensures Substituted(s) == s
  {
    if s != "" {
      SubstituteNothing(s[..|s| - 1]);
      assert s[|s| - 1] in s;
    }
  }

  lemma ScrubbedStays(u: Unicode, s: string)
    requires Sane(u) && forall c :: c in s ==> MayRemain(u, c)
    ensures Scrubbed(u, s) == s
  {
    assert REPLACED[2] == '"';
    LacksChar(s, REPLACED, '"');
    ReplaceAbsent(s, REPLACED, "'");
    forall c | c in s
      ensures Substitute(c) == [c]
    {
      assert MayRemain(u, c);
    }
    SubstituteNothing(s);
    FilterAll(Kept(u), s);
    FilterAll(Allowed(u), s);
  }

  /** What becomes of one character. */
  function CleanChar(u: Unicode): char -> string {
    (c: char) =>
      if c == EN_DASH || c == EM_DASH then "-"
      else if c == ELLIPSIS then "..."
      else if !IsZeroWidth(c) && Kept(u)(c) && Allowed(u)(c) then [c]
      else ""
  }

  function KeptSubstitute(u: Unicode): char -> string { (c: char) => Filter(Kept(u), Substitute(c)) }

  lemma CleanCharSteps(u: Unicode, c: char)
    ensures Filter(Allowed(u), KeptSubstitute(u)(c)) == CleanChar(u)(c)
  {
    if c == EN_DASH || c == EM_DASH || c == ELLIPSIS {
      FilterAll(Kept(u), Substitute(c));
      FilterAll(Allowed(u), Substitute(c));
    } else if IsZeroWidth(c) {
      FilterNone(Kept(u), "");
      FilterNone(Allowed(u), "");
    } else {
      FilterSingle(Kept(u), c);
      FilterSingle(Allowed(u), c);
      FilterNone(Allowed(u), "");
    }
  }

  /** The steps after the replacement are one pass over the characters: dashes, ellipses, allowed characters, and
      nothing else. */
  lemma ScrubbedPerCharacter(u: Unicode, s: string)
    ensures Scrubbed(u, s) == FlatMap(CleanChar(u), ReplaceAll(s, REPLACED, "'"))
  {
    var replaced := ReplaceAll(s, REPLACED, "'");
    FilterFlatMap(Kept(u), Substitute, KeptSubstitute(u), replaced);
    forall c: char
      ensures CleanChar(u)(c) == Filter(Allowed(u), KeptSubstitute(u)(c))
    {
      CleanCharSteps(u, c);
    }
    FilterFlatMap(Allowed(u), KeptSubstitute(u), CleanChar(u), replaced);
  }

  // ---- Counting brackets: the replacement loses them, nothing else does ----

  function IsBracket(): char -> bool { (c: char) => c == '(' }

  function Brackets(s: string): nat { |Filter(IsBracket(), s)| }

  lemma BracketsAppend(a: string, b: string)
    ensures Brackets(a + b) == Brackets(a) + Brackets(b)
  {
    FilterAppend(IsBracket(), a, b);
  }

  lemma BracketsOfChar(c: char)
    ensures Brackets([c]) == if c == '(' then 1 else 0
  {
    FilterSingle(IsBracket(), c);
  }

  lemma OneBracketReplaced()
    ensures Brackets(REPLACED) == 1 && Brackets("'") == 0
  {
    var n := |REPLACED| - 1;
    assert REPLACED == REPLACED[..n] + ['('];
    BracketsAppend(REPLACED[..n], ['(']);
    BracketsOfChar('(');
    BracketsOfChar('\'');
    assert forall k :: 0 <= k < n ==> REPLACED[..n][k] != '(';
    FilterNone(IsBracket(), REPLACED[..n]);
  }

  /** Every replacement loses a bracket. */
  lemma {:induction false} ReplacingLosesBrackets(s: string)
    ensures Brackets(ReplaceAll(s, REPLACED, "'")) <= Brackets(s)
    ensures Contains(s, REPLACED) ==> Brackets(ReplaceAll(s, REPLACED, "'")) < Brackets(s)
    decreases |s|
  {
    if |s| >= |REPLACED| {
      var skip := if REPLACED <= s then |REPLACED| else 1;
      var rest := s[skip..];
      ReplacingLosesBrackets(rest);
      ContainsFrom(s, REPLACED);
      BracketsAppend(s[..skip], rest);
      assert s == s[..skip] + rest;
      if REPLACED <= s {
        OneBracketReplaced();
        assert s[..skip] == REPLACED;
        BracketsAppend("'", ReplaceAll(rest, REPLACED, "'"));
      } else {
        assert s[..skip] == [s[0]];
        BracketsAppend([s[0]], ReplaceAll(rest, REPLACED, "'"));
      }
    }
  }

  lemma {:induction false} CleaningKeepsBrackets(u: Unicode, s: string)
    ensures Brackets(FlatMap(CleanChar(u), s)) == Brackets(s)
  {
    if s != "" {
      var init, last := s[..|s| - 1], s[|s| - 1];
      CleaningKeepsBrackets(u, init);
      BracketsAppend(FlatMap(CleanChar(u), init), CleanChar(u)(last));
      assert s == init + [last];
      BracketsAppend(init, [last]);
      CleanCharBrackets(u, last);
    }
  }

  lemma CleanCharBrackets(u: Unicode, c: char)
    ensures Brackets(CleanChar(u)(c)) == Brackets([c])
  {
    if c == '(' {
      assert ".,-+$%()[]:|/"[6] == c;
      assert IsPunctuation(c) && !IsZeroWidth(c) && Kept(u)(c) && Allowed(u)(c);
      assert CleanChar(u)(c) == [c];
    } else {
      BracketsOfChar(c);
      assert forall x :: x in CleanChar(u)(c) ==> !IsBracket()(x);
      FilterNone(IsBracket(), CleanChar(u)(c));
    }
  }

  lemma {:induction false} JoiningKeepsBrackets(s: string)
    ensures Brackets(Join(WordsOf(s))) == Brackets(s)
  {
    if s != "" {
      var init, last := s[..|s| - 1], s[|s| - 1];
      assert s == init + [last];
      JoiningKeepsBrackets(init);
      JoiningOneMore(init, last);
    }
  }

  lemma JoiningOneMore(init: string, last: char)
    requires Brackets(Join(WordsOf(init))) == Brackets(init)
    ensures Brackets(Join(WordsOf(init + [last]))) == Brackets(init + [last])
  {
    WordsNext(init, last);
    BracketsAppend(init, [last]);
    BracketsOfChar(last);
    if !IsSpace(last) {
      JoinedNextBrackets(WordsOf(init), last, init == "" || EndsInSpace(init));
    }
  }

  lemma JoinedNextBrackets(words: seq<string>, last: char, isNew: bool)
    requires isNew || words != []
    ensures Brackets(Join(if isNew then words + [[last]] else Grown(words, last))) ==
            Brackets(Join(words)) + Brackets([last])
  {
    if !isNew {
      JoinMore(words, last);
      BracketsAppend(Join(words), [last]);
    } else {
      JoinNext(words, [last]);
      if words == [] {
        assert Join(words) == "";
      } else {
        BracketsAppend(Join(words), " ");
        BracketsAppend(Join(words) + " ", [last]);
        BracketsOfChar(' ');
      }
    }
  }

  /** For a text the whole chain of replacements and filters is one pass over its characters exactly when the
      replaced text does not occur in it. */
  lemma CleaningIsCharacterwise(u: Unicode, s: string)
    ensures Scrubbed(u, s) == FlatMap(CleanChar(u), s) <==> !Contains(s, REPLACED)
  {
    ScrubbedPerCharacter(u, s);
    if Contains(s, REPLACED) {
      ReplacingLosesBrackets(s);
      CleaningKeepsBrackets(u, s);
      CleaningKeepsBrackets(u, ReplaceAll(s, REPLACED, "'"));
    } else {
      ReplaceAbsent(s, REPLACED, "'");
    }
  }

  /** Of ASCII exactly letters, digits, white space and the characters _ . , - + $ % ( ) [ ] : | / are kept. */
  lemma AsciiIsKept(u: Unicode, c: char)
    requires c < '\U{80}' && (u.isAlnum(c) <==> IsAsciiAlnum(c))
    ensures CleanChar(u)(c) == [c] <==>
            || '0' <= c <= '9' || 'A' <= c <= 'Z' || 'a' <= c <= 'z' || c == '_'
            || '\t' <= c <= '\r' || '\U{1C}' <= c <= ' '
            || c == '.' || c == ',' || c == '-' || c == '+' || c == '$' || c == '%' || c == '(' || c == ')'
            || c == '[' || c == ']' || c == ':' || c == '|' || c == '/'
    ensures CleanChar(u)(c) != [c] ==> CleanChar(u)(c) == ""
  {
    PunctuationIs(c);
    assert !IsZeroWidth(c) && Kept(u)(c);
    assert IsSpace(c) <==> '\t' <= c <= '\r' || '\U{1C}' <= c <= ' ';
    assert Allowed(u)(c) <==> u.isAlnum(c) || c == '_' || IsSpace(c) || IsPunctuation(c);
    assert CleanChar(u)(c) == if Allowed(u)(c) then [c] else "";
  }

  lemma PunctuationIs(c: char)
    ensures IsPunctuation(c) <==>
            || c == '.' || c == ',' || c == '-' || c == '+' || c == '$' || c == '%' || c == '(' || c == ')'
            || c == '[' || c == ']' || c == ':' || c == '|' || c == '/'
  {
    var p := ".,-+$%()[]:|/";
    assert p[0] == '.' && p[1] == ',' && p[2] == '-' && p[3] == '+' && p[4] == '$' && p[5] == '%' && p[6] == '(';
    assert p[7] == ')' && p[8] == '[' && p[9] == ']' && p[10] == ':' && p[11] == '|' && p[12] == '/' && |p| == 13;
    assert forall x :: x in p <==> exists i :: 0 <= i < |p| && p[i] == x;
    if IsPunctuation(c) {
      var i :| 0 <= i < |p| && p[i] == c;
      assert i in {0, 1, 2, 3, 4, 5, 6, 7, 8, 9, 10, 11, 12};
    }
  }

  /** Beyond ASCII a character is kept when it is alphanumeric and, a letter, digit or currency sign, passes the
      first filter, or when it is white space; dashes and ellipses are replaced, all others dropped. */
  lemma OthersAreDropped(u: Unicode, c: char)
    requires c >= '\U{80}' && !IsZeroWidth(c) && Sane(u)
    ensures c == '\U{2013}' || c == '\U{2014}' ==> CleanChar(u)(c) == "-"
    ensures c == '\U{2026}' ==> CleanChar(u)(c) == "..."
    ensures c != '\U{2013}' && c != '\U{2014}' && c != '\U{2026}' ==>
              CleanChar(u)(c) == if IsSpace(c) || (u.isAlnum(c) && (u.isAlpha(c) || u.isDigit(c) || IsCurrency(c)))
                                 then [c] else ""
  {
    PunctuationIs(c);
    assert Allowed(u)(c) <==> u.isAlnum(c) || IsSpace(c);
    assert Kept(u)(c) <==> IsCurrency(c) || u.isAlpha(c) || u.isDigit(c) || IsSpace(c);
    if c != EN_DASH && c != EM_DASH && c != ELLIPSIS {
      assert CleanChar(u)(c) == if Kept(u)(c) && Allowed(u)(c) then [c] else "";
    }
  }

  predicate IsTypographicApostrophe(c: char) { c == '\U{2018}' || c == '\U{2019}' }

  function OtherChars(): char -> bool { (c: char) => !IsTypographicApostrophe(c) && c != '\'' }

  /** Typographic apostrophes are not replaced by plain ones but dropped, and so are plain ones: no result holds
      any, and a text is sanitized to the same as the text without any exactly when the replaced text does not
      occur in it. */
  lemma ApostrophesAreDropped(u: Unicode, content: string)
    requires Sane(u) && !u.isAlnum('\U{2018}') && !u.isAlnum('\U{2019}')
    ensures Sanitize(u, content) == Sanitize(u, Filter(OtherChars(), content)) <==> !Contains(content, REPLACED)
    ensures forall c :: c in Sanitize(u, content) ==> OtherChars()(c)
  {
    var plain := Filter(OtherChars(), content);
    WithoutApostrophes(u, content);
    SanitizeJoinsWords(u, content);
    SanitizeJoinsWords(u, plain);
    CleaningIsCharacterwise(u, content);
    if Contains(content, REPLACED) {
      ReplacementShows(u, content);
    }
    forall c | c in Sanitize(u, content)
      ensures OtherChars()(c)
    {
      SanitizedIsTidy(u, content);
      ApostropheGoes(u, c);
    }
  }

  /** A replacement is seen in the result: it holds fewer brackets than the text. */
  lemma ReplacementShows(u: Unicode, content: string)
    requires Contains(content, REPLACED)
    ensures Join(WordsOf(Scrubbed(u, content))) != Join(WordsOf(FlatMap(CleanChar(u), content)))
  {
    ScrubbedPerCharacter(u, content);
    ReplacingLosesBrackets(content);
    CleaningKeepsBrackets(u, content);
    CleaningKeepsBrackets(u, ReplaceAll(content, REPLACED, "'"));
    JoiningKeepsBrackets(Scrubbed(u, content));
    JoiningKeepsBrackets(FlatMap(CleanChar(u), content));
  }

  lemma ApostropheGoes(u: Unicode, c: char)
    requires Sane(u) && !u.isAlnum('\U{2018}') && !u.isAlnum('\U{2019}')
    ensures !OtherChars()(c) ==> CleanChar(u)(c) == "" && !MayRemain(u, c)
  {
    if !OtherChars()(c) {
      assert c == '\U{2018}' || c == '\U{2019}' || c == '\'';
      assert !IsPunctuation(c) && c != '_' && !IsSpace(c);
      assert !Allowed(u)(c);
    }
  }

  lemma WithoutApostrophes(u: Unicode, content: string)
    requires Sane(u) && !u.isAlnum('\U{2018}') && !u.isAlnum('\U{2019}')
    ensures Scrubbed(u, Filter(OtherChars(), content)) == FlatMap(CleanChar(u), content)
  {
    var plain := Filter(OtherChars(), content);
    FilterMembers(OtherChars(), content);
    assert REPLACED[3] == '\'';
    LacksChar(plain, REPLACED, '\'');
    CleaningIsCharacterwise(u, plain);
    forall c: char
      ensures !OtherChars()(c) ==> CleanChar(u)(c) == ""
    {
      ApostropheGoes(u, c);
    }
    SkipDropped(CleanChar(u), OtherChars(), content);
  }

  lemma {:induction false} SkipDropped(f: char -> string, p: char -> bool, s: string)
    requires forall c :: !p(c) ==> f(c) == ""
    ensures FlatMap(f, Filter(p, s)) == FlatMap(f, s)
  {
    if s != "" {
      var init, last := s[..|s| - 1], s[|s| - 1];
      SkipDropped(f, p, init);
      if p(last) {
        assert (Filter(p, init) + [last])[..|Filter(p, init)|] == Filter(p, init);
      }
    }
  }

  /** A text is left as it is exactly when it is tidy and all its characters may remain. */
  lemma SanitizedTexts(u: Unicode, s: string)
    requires Sane(u)
    ensures Sanitize(u, s) == s <==> Tidy(s) && forall c :: c in s ==> MayRemain(u, c)
  {
    SanitizedIsTidy(u, s);
    SanitizeJoinsWords(u, s);
    if Tidy(s) && forall c :: c in s ==> MayRemain(u, c) {
      ScrubbedStays(u, s);
      TidyIsJoin(s);
    }
  }

  /** A second pass changes nothing. */
  lemma SanitizeIsIdempotent(u: Unicode, content: string)
    requires Sane(u)
    ensures Sanitize(u, Sanitize(u, content)) == Sanitize(u, content)
  {
    SanitizedIsTidy(u, content);
    SanitizedTexts(u, Sanitize(u, content));
  }

  /** Nothing but cleaning and white space is lost: the words of the result are the words of the cleaned text. */
  lemma SanitizeKeepsWords(u: Unicode, content: string)
    ensures WordsOf(Sanitize(u, content)) == WordsOf(Scrubbed(u, content))
  {
    SanitizeJoinsWords(u, content);
    WordsAreWords(Scrubbed(u, content));
    WordsOfJoin(WordsOf(Scrubbed(u, content)));
  }
}
