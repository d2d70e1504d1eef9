/** Commenting out all but the last assignment of each variable in a .env file. */
module EnvCleanup {
  import opened Common
  import opened Text

  function IndexOf(s: string, c: char): (i: nat)
    requires c in s
    ensures i < |s| && s[i] == c && c !in s[..i]
  {
    if s[0] == c then 0 else 1 + IndexOf(s[1..], c)
  }

  lemma {:induction false} IndexIsUnique(s: string, c: char, i: nat)
    requires i < |s| && s[i] == c && forall k :: 0 <= k < i ==> s[k] != c
    ensures c in s && IndexOf(s, c) == i
  {
    if i > 0 {
      IndexIsUnique(s[1..], c, i - 1);
    }
  }

  predicate Assigns(line: string) {
    var stripped := Strip(line);
    stripped != "" && stripped[0] != '#' && '=' in stripped
  }

  function NameOf(line: string): string
    requires Assigns(line)
  {
    Strip(Strip(line)[..IndexOf(Strip(line), '=')])
  }

  function ValueOf(line: string): string
    requires Assigns(line)
  {
    Strip(line)[IndexOf(Strip(line), '=') + 1..]
  }

  /** The variable a line assigns, if any. */
  function OwnerOf(line: string): Option<string> {
    if Assigns(line) then Some(NameOf(line)) else None
  }

  function Owners(lines: seq<string>): seq<Option<string>> {
    seq(|lines|, i requires 0 <= i < |lines| => OwnerOf(lines[i]))
  }

  /** The numbers of the lines that assign the variable, ascending. */
  function LinesOf(owners: seq<Option<string>>, name: string): (numbers: seq<nat>)
    ensures forall k :: 0 <= k < |numbers| ==> numbers[k] < |owners| && owners[numbers[k]] == Some(name)
    ensures Ascending(numbers)
  {
    if owners == [] then []
    else
      var last := |owners| - 1;
      if owners[last] == Some(name) then LinesOf(owners[..last], name) + [last] else LinesOf(owners[..last], name)
  }

  predicate Ascending(s: seq<nat>) { forall a, b :: 0 <= a < b < |s| ==> s[a] < s[b] }

  /** Some later line assigns the same variable. */
  predicate Superseded(owners: seq<Option<string>>, i: nat)
    requires i < |owners|
  {
    owners[i].Some? && exists j :: i < j < |owners| && owners[j] == owners[i]
  }

  function Commented(line: string): string { "# " + line }

  function CleanedLine(lines: seq<string>, i: nat): string
    requires i < |lines|
  {
    if Superseded(Owners(lines), i) then Commented(lines[i]) else lines[i]
  }

  function Deduplicated(lines: seq<string>): seq<string> {
    seq(|lines|, i requires 0 <= i < |lines| => CleanedLine(lines, i))
  }

  function LinesFor(owners: seq<Option<string>>): string -> seq<nat> { (name: string) => LinesOf(owners, name) }

  /** The variables without repetition, each with the lines that assign it. */
  ghost predicate Indexes(names: seq<string>, variables: map<string, seq<nat>>, linesFor: string -> seq<nat>) {
    && (forall v :: v in names <==> v in variables)
    && (forall a, b :: 0 <= a < b < |names| ==> names[a] != names[b])
    && (forall v :: v in variables ==> variables[v] == linesFor(v))
    && (forall v :: v !in variables ==> linesFor(v) == [])
  }

  lemma IndexSame(names: seq<string>, variables: map<string, seq<nat>>, owners: seq<Option<string>>, i: nat)
    requires i < |owners| && owners[i].None? && Indexes(names, variables, LinesFor(owners[..i]))
    ensures Indexes(names, variables, LinesFor(owners[..i + 1]))
  {
    forall v: string
      ensures LinesFor(owners[..i + 1])(v) == LinesFor(owners[..i])(v)
    {
      LinesNext(owners, i, v);
    }
  }

  lemma IndexNext(names: seq<string>, variables: map<string, seq<nat>>, owners: seq<Option<string>>, i: nat,
                  name: string)
    requires i < |owners| && owners[i] == Some(name) && Indexes(names, variables, LinesFor(owners[..i]))
    ensures
      var lines := if name in variables then variables[name] else [];
      Indexes(if name in variables then names else names + [name], variables[name := lines + [i]],
              LinesFor(owners[..i + 1]))
  {
    forall v: string
      ensures LinesFor(owners[..i + 1])(v) == LinesFor(owners[..i])(v) + if v == name then [i] else []
    {
      LinesNext(owners, i, v);
    }
    IndexGrows(names, variables, LinesFor(owners[..i]), LinesFor(owners[..i + 1]), i, name);
  }

  lemma IndexGrows(names: seq<string>, variables: map<string, seq<nat>>, before: string -> seq<nat>,
                   after: string -> seq<nat>, i: nat, name: string)
    requires Indexes(names, variables, before)
    requires forall v :: after(v) == before(v) + if v == name then [i] else []
    ensures
      var lines := if name in variables then variables[name] else [];
      Indexes(if name in variables then names else names + [name], variables[name := lines + [i]], after)
  {
  }

  /** The variables in order of first assignment, with the lines that assign them. */
  method AnalyzeLines(lines: seq<string>) returns (names: seq<string>, variables: map<string, seq<nat>>)
    ensures Indexes(names, variables, LinesFor(Owners(lines)))
  {
    names, variables := [], map[];
    ghost var owners := Owners(lines);
    for i := 0 to |lines|
      invariant Indexes(names, variables, LinesFor(owners[..i]))
    {
      var owner := OwnerOf(lines[i]);
      assert owners[i] == owner;
      if owner.Some? {
        IndexNext(names, variables, owners, i, owner.value);
        if owner.value !in variables {
          names := names + [owner.value];
          variables := variables[owner.value := []];
        }
        variables := variables[owner.value := variables[owner.value] + [i]];
      } else {
        IndexSame(names, variables, owners, i);
      }
    }
    assert owners[..|lines|] == owners;
  }

  lemma LinesNext(owners: seq<Option<string>>, i: nat, v: string)
    requires i < |owners|
    ensures LinesOf(owners[..i + 1], v) == LinesOf(owners[..i], v) + if owners[i] == Some(v) then [i] else []
  {
    assert owners[..i + 1][..i] == owners[..i];
  }

  /** Rewrites the lines in place, unless it is a dry run. */
  method CleanupLines(lines: array<string>, dryRun: bool)
    modifies lines
    ensures lines[..] == if dryRun then old(lines[..]) else Deduplicated(old(lines[..]))
  {
    var names, variables := AnalyzeLines(lines[..]);
    if dryRun {
      return;
    }
    ghost var was, owners := lines[..], Owners(lines[..]);
    for k := 0 to |names|
      invariant DoneFor(was, lines[..], owners, names[..k])
    {
      CommentOut(lines, variables[names[k]], was, owners, names[k], names[..k]);
      assert names[..k + 1] == names[..k] + [names[k]];
    }
    assert names[..|names|] == names;
    AllNamesDone(was, lines[..], names, variables);
  }

  /** The superseded assignments of the given variables are comments, all other lines are as they were. */
  ghost predicate DoneFor(was: seq<string>, now: seq<string>, owners: seq<Option<string>>, names: seq<string>) {
    && |now| == |was| == |owners|
    && forall i :: 0 <= i < |was| ==>
         now[i] == if Superseded(owners, i) && owners[i].value in names then Commented(was[i]) else was[i]
  }

  lemma AllNamesDone(was: seq<string>, now: seq<string>, names: seq<string>, variables: map<string, seq<nat>>)
    requires |now| == |was| && Indexes(names, variables, LinesFor(Owners(was)))
    requires DoneFor(was, now, Owners(was), names)
    ensures now == Deduplicated(was)
  {
    var owners := Owners(was);
    forall i: nat | i < |was| && owners[i].Some?
      ensures owners[i].value in names
    {
      LinesOfComplete(owners, owners[i].value);
      assert i in LinesOf(owners, owners[i].value);
    }
  }

  /** Comments out all but the last of the given lines; earlier variables were dealt with before. */
  method CommentOut(lines: array<string>, numbers: seq<nat>, ghost was: seq<string>, ghost owners: seq<Option<string>>,
                    ghost name: string, ghost earlier: seq<string>)
    requires |was| == lines.Length && owners == Owners(was) && numbers == LinesOf(owners, name) && name !in earlier
    requires DoneFor(was, lines[..], owners, earlier)
    modifies lines
    ensures DoneFor(was, lines[..], owners, earlier + [name])
  {
    ghost var before := lines[..];
    var superseded := numbers[..if numbers == [] then 0 else |numbers| - 1];
    forall k | 0 <= k < |superseded|
      ensures superseded[k] < lines.Length && OwnerOf(lines[superseded[k]]).Some?
    {
      assert owners[numbers[k]] == Some(name);
    }
    CommentLines(lines, superseded);
    forall i: nat | i < |was|
      ensures i in superseded ==> before[i] == was[i]
    {
      SupersededIsNotLast(owners, name, i);
    }
    NameDone(was, before, lines[..], owners, name, earlier);
  }

  /** Comments out active lines. */
  method CommentLines(lines: array<string>, numbers: seq<nat>)
    requires Ascending(numbers)
    requires forall k :: 0 <= k < |numbers| ==> numbers[k] < lines.Length && OwnerOf(lines[numbers[k]]).Some?
    modifies lines
    ensures forall i :: 0 <= i < lines.Length ==>
              lines[i] == if i in numbers then Commented(old(lines[i])) else old(lines[i])
  {
    for j := 0 to |numbers|
      invariant forall i :: 0 <= i < lines.Length ==>
                  lines[i] == if i in numbers[..j] then Commented(old(lines[i])) else old(lines[i])
    {
      assert numbers[..j + 1] == numbers[..j] + [numbers[j]];
      assert numbers[j] !in numbers[..j];
      var original := lines[numbers[j]];
      OwnedLineIsActive(original);
      if !(Strip(original) != "" && Strip(original)[0] == '#') {
        lines[numbers[j]] := "# " + original;
      }
    }
    assert numbers[..|numbers|] == numbers;
  }

  lemma NameDone(was: seq<string>, before: seq<string>, now: seq<string>, owners: seq<Option<string>>,
                 name: string, earlier: seq<string>)
    requires DoneFor(was, before, owners, earlier) && name !in earlier && |now| == |was|
    requires
      var numbers := LinesOf(owners, name);
      forall i: nat :: i < |was| ==>
        now[i] == if i in numbers[..if numbers == [] then 0 else |numbers| - 1] then Commented(was[i]) else before[i]
    ensures DoneFor(was, now, owners, earlier + [name])
  {
    forall i: nat | i < |was|
      ensures now[i] ==
              if Superseded(owners, i) && owners[i].value in earlier + [name] then Commented(was[i]) else was[i]
    {
      SupersededIsNotLast(owners, name, i);
    }
  }

  lemma OwnedLineIsActive(line: string)
    ensures OwnerOf(line).Some? ==> Strip(line) != "" && Strip(line)[0] != '#'
  {
  }

  lemma {:induction false} LinesOfComplete(owners: seq<Option<string>>, name: string)
    ensures forall i: nat :: i in LinesOf(owners, name) <==> i < |owners| && owners[i] == Some(name)
  {
    if owners != [] {
      LinesOfComplete(owners[..|owners| - 1], name);
    }
  }

  /** All but the last of an ascending list are those with a greater one in it. */
  lemma AllButLast(numbers: seq<nat>, i: nat)
    requires Ascending(numbers)
    ensures i in numbers[..if numbers == [] then 0 else |numbers| - 1] <==>
            i in numbers && exists j :: j in numbers && i < j
  {
    if numbers != [] {
      var init, last := numbers[..|numbers| - 1], numbers[|numbers| - 1];
      assert last in numbers;
      if i in init {
        assert i < last;
      }
      if j :| i in numbers && j in numbers && i < j {
        var a :| 0 <= a < |numbers| && numbers[a] == i;
        assert a != |numbers| - 1;
        assert init[a] == i;
      }
    }
  }

  lemma SupersededIsNotLast(owners: seq<Option<string>>, name: string, i: nat)
    requires i < |owners|
    ensures
      var numbers := LinesOf(owners, name);
      (Superseded(owners, i) && owners[i].value == name) <==>
        i in numbers[..if numbers == [] then 0 else |numbers| - 1]
  {
    LinesOfComplete(owners, name);
    AllButLast(LinesOf(owners, name), i);
  }

  // ---- What a line assigns ----

  /** A line of the form `name = value`, with white space around name and line, assigns the value, with the white
      space before it, to the name. */
  lemma AssignmentIsRead(before: string, name: string, gap: string, value: string, after: string)
    requires AllSpaces(before) && AllSpaces(gap) && AllSpaces(after)
    requires VisibleEnds(name) && name[0] != '#' && '=' !in name
    requires value == "" || !IsSpace(value[|value| - 1])
    ensures
      var line := before + (name + gap + "=" + value) + after;
      OwnerOf(line) == Some(name) && ValueOf(line) == value
  {
    var core := name + gap + "=" + value;
    AssignmentParts(name, gap, value);
    StripPadded(before, core, after);
  }

  lemma AssignmentParts(name: string, gap: string, value: string)
    requires AllSpaces(gap) && VisibleEnds(name) && '=' !in name && (value == "" || !IsSpace(value[|value| - 1]))
    ensures
      var core, i := name + gap + "=" + value, |name + gap|;
      && VisibleEnds(core) && core[0] == name[0] && '=' in core && IndexOf(core, '=') == i
      && Strip(core[..i]) == name && core[i + 1..] == value
  {
    var core, i := name + gap + "=" + value, |name + gap|;
    assert forall k :: 0 <= k < i ==> core[k] == (name + gap)[k];
    assert forall k :: 0 <= k < |gap| ==> gap[k] != '=';
    IndexIsUnique(core, '=', i);
    assert core[..i] == "" + name + gap;
    StripPadded("", name, gap);
  }

  /** A line that starts with a number sign, whatever the white space before it, assigns nothing, and neither does
      one without an equals sign. */
  lemma OthersAssignNothing(before: string, rest: string)
    requires AllSpaces(before)
    ensures OwnerOf(before + ("#" + rest)) == None
    ensures '=' !in rest ==> OwnerOf(rest) == None
  {
    StripLeftPad(before, "#" + rest);
    StripKeepsStart("#" + rest);
    StripLeftPad("", "#" + rest);
    assert "" + ("#" + rest) == "#" + rest;
    StripIsPart(rest);
  }

  lemma {:induction false} StripIsPart(s: string)
    ensures forall c :: c in Strip(s) ==> c in s
    decreases |s|
  {
    if s != "" && IsSpace(s[0]) {
      StripIsPart(s[1..]);
      assert s == [s[0]] + s[1..];
    } else if s != "" && IsSpace(s[|s| - 1]) {
      var init := s[..|s| - 1];
      StripIsPart(init);
      assert init[0] == s[0] && s == init + [s[|s| - 1]];
      assert StripLeft(init) == init && StripRight(s) == StripRight(init);
    }
  }

  // ---- What the cleanup keeps ----

  lemma CommentIsInactive(line: string)
    ensures OwnerOf(Commented(line)) == None
  {
    StripKeepsStart(Commented(line));
  }

  /** The owners once the superseded lines are comments. */
  lemma DeduplicatedOwners(lines: seq<string>)
    ensures
      var before, after := Owners(lines), Owners(Deduplicated(lines));
      && |after| == |before|
      && forall i :: 0 <= i < |before| ==> after[i] == if Superseded(before, i) then None else before[i]
  {
    forall i | 0 <= i < |lines|
      ensures OwnerOf(Deduplicated(lines)[i]) == if Superseded(Owners(lines), i) then None else OwnerOf(lines[i])
    {
      CommentIsInactive(lines[i]);
    }
  }

  /** The value of a variable: that of its last assignment. */
  function LastValue(lines: seq<string>, name: string): Option<string> {
    if lines == [] then None
    else
      var last := lines[|lines| - 1];
      if OwnerOf(last) == Some(name) then Some(ValueOf(last)) else LastValue(lines[..|lines| - 1], name)
  }

  lemma OwnersNext(lines: seq<string>)
    requires lines != []
    ensures
      var owners, last := Owners(lines), |lines| - 1;
      owners[last] == OwnerOf(lines[last]) && owners[..last] == Owners(lines[..last])
  {
  }

  /** The number of the last line that assigns the variable. */
  function LastLine(owners: seq<Option<string>>, name: string): (last: Option<nat>)
    ensures last.Some? ==> last.value < |owners| && owners[last.value] == Some(name)
  {
    var numbers := LinesOf(owners, name);
    if numbers == [] then None else Some(numbers[|numbers| - 1])
  }

  lemma LastLineNext(owners: seq<Option<string>>, name: string)
    requires owners != []
    ensures
      var last := |owners| - 1;
      LastLine(owners, name) == if owners[last] == Some(name) then Some(last) else LastLine(owners[..last], name)
  {
  }

  lemma {:induction false} LastValueByLine(lines: seq<string>, name: string)
    ensures
      var line := LastLine(Owners(lines), name);
      LastValue(lines, name) == if line.None? then None else Some(ValueOf(lines[line.value]))
  {
    if lines != [] {
      LastValueByLine(lines[..|lines| - 1], name);
      OwnersNext(lines);
      LastLineNext(Owners(lines), name);
    }
  }

  /** The last of an ascending list is the one that is not among the others. */
  lemma OnlyLast(numbers: seq<nat>, i: nat)
    requires Ascending(numbers)
    ensures
      i in (if numbers == [] then [] else [numbers[|numbers| - 1]]) <==>
        i in numbers && i !in numbers[..if numbers == [] then 0 else |numbers| - 1]
  {
    AllButLast(numbers, i);
    if numbers != [] {
      var init := numbers[..|numbers| - 1];
      assert numbers == init + [numbers[|numbers| - 1]];
    }
  }

  lemma SupersededGone(before: seq<Option<string>>, after: seq<Option<string>>, name: string)
    requires |after| == |before|
    requires forall i :: 0 <= i < |before| ==> after[i] == if Superseded(before, i) then None else before[i]
    ensures
      var numbers := LinesOf(before, name);
      LinesOf(after, name) == if numbers == [] then [] else [numbers[|numbers| - 1]]
  {
    var numbers, kept := LinesOf(before, name), LinesOf(after, name);
    var single := if numbers == [] then [] else [numbers[|numbers| - 1]];
    forall i: nat
      ensures i in kept <==> i in single
    {
      LinesOfComplete(before, name);
      LinesOfComplete(after, name);
      OnlyLast(numbers, i);
      if i < |before| {
        SupersededIsNotLast(before, name, i);
      }
    }
    SameMembersSameList(kept, single);
  }

  lemma SameMembersSameList(s: seq<nat>, single: seq<nat>)
    requires Ascending(s) && |single| <= 1 && forall i: nat :: i in s <==> i in single
    ensures s == single
  {
    forall a | 0 <= a < |s|
      ensures |single| == 1 && s[a] == single[0]
    {
      assert s[a] in s;
      assert s[a] in single;
    }
    if single != [] {
      assert single[0] in single && single[0] in s;
    }
    if s != [] {
      assert s[0] == single[0] == s[|s| - 1];
    }
  }

  /** The last assignment of a variable is the only one that stays active, and its line is as it was. */
  lemma LastLineStays(lines: seq<string>, name: string)
    ensures
      var before, after := Owners(lines), Owners(Deduplicated(lines));
      && LinesOf(after, name) == (if LastLine(before, name).None? then [] else [LastLine(before, name).value])
      && LastLine(after, name) == LastLine(before, name)
  {
    DeduplicatedOwners(lines);
    SupersededGone(Owners(lines), Owners(Deduplicated(lines)), name);
  }

  lemma ActiveLineStays(lines: seq<string>, i: nat)
    requires i < |lines| && Owners(Deduplicated(lines))[i].Some?
    ensures Deduplicated(lines)[i] == lines[i]
  {
    DeduplicatedOwners(lines);
  }

  /** For every variable: its value is unchanged, exactly one assignment stays active if there was any, and it is
      the last one. */
  lemma CleanupPreservesMeaning(lines: seq<string>, name: string)
    ensures LastValue(Deduplicated(lines), name) == LastValue(lines, name)
    ensures
      var last := LastLine(Owners(lines), name);
      LinesOf(Owners(Deduplicated(lines)), name) == if last.None? then [] else [last.value]
  {
    LastLineStays(lines, name);
    LastValueByLine(lines, name);
    LastValueByLine(Deduplicated(lines), name);
    var last := LastLine(Owners(Deduplicated(lines)), name);
    if last.Some? {
      ActiveLineStays(lines, last.value);
    }
  }

  /** Cleaning again changes nothing, and cleaning changes nothing exactly when no line is superseded. */
  lemma CleanupSettles(lines: seq<string>)
    ensures Deduplicated(Deduplicated(lines)) == Deduplicated(lines)
    ensures Deduplicated(lines) == lines <==> forall i :: 0 <= i < |lines| ==> !Superseded(Owners(lines), i)
  {
    var once := Deduplicated(lines);
    DeduplicatedOwners(lines);
    assert forall i :: 0 <= i < |lines| ==> !Superseded(Owners(once), i);
    assert forall i :: 0 <= i < |lines| && Superseded(Owners(lines), i) ==> |once[i]| == |lines[i]| + 2;
  }

  // ---- The file as a text ----

  /** Lines with their line ends; the last may lack one. */
  function ReadLines(text: string): seq<string> {
    if text == "" then []
    else if '\n' in text then
      var end := IndexOf(text, '\n') + 1;
      [text[..end]] + ReadLines(text[end..])
    else [text]
  }

  function WriteLines(lines: seq<string>): string {
    if lines == [] then "" else lines[0] + WriteLines(lines[1..])
  }

  /** A line as it is read: not empty, with a line end at its end only, and always there except in the last. */
  ghost predicate LineLike(line: string, isLast: bool) {
    && line != "" && (forall k :: 0 <= k < |line| - 1 ==> line[k] != '\n')
    && (line[|line| - 1] == '\n' || isLast)
  }

  ghost predicate FileLike(lines: seq<string>) {
    forall i :: 0 <= i < |lines| ==> LineLike(lines[i], i == |lines| - 1)
  }

  lemma {:induction false} ReadIsFileLike(text: string)
    ensures FileLike(ReadLines(text))
  {
    if '\n' in text {
      var end := IndexOf(text, '\n') + 1;
      var rest := ReadLines(text[end..]);
      ReadIsFileLike(text[end..]);
      assert forall k :: 0 <= k < end - 1 ==> text[..end][k] == text[..end - 1][k];
      assert ReadLines(text) == [text[..end]] + rest;
    }
  }

  lemma ReadOneLine(line: string, rest: string)
    requires LineLike(line, false)
    ensures ReadLines(line + rest) == [line] + ReadLines(rest)
  {
    var text := line + rest;
    assert forall k :: 0 <= k < |line| ==> text[k] == line[k];
    IndexIsUnique(text, '\n', |line| - 1);
    assert text[..|line|] == line && text[|line|..] == rest;
  }

  lemma ReadLastLine(line: string)
    requires LineLike(line, true)
    ensures ReadLines(line) == [line]
  {
    if line[|line| - 1] == '\n' {
      ReadOneLine(line, "");
      assert line + "" == line;
    }
  }

  lemma {:induction false} ReadWritten(lines: seq<string>)
    requires FileLike(lines)
    ensures ReadLines(WriteLines(lines)) == lines
  {
    if |lines| == 1 {
      assert LineLike(lines[0], true) && WriteLines(lines) == lines[0] + "" == lines[0];
      ReadLastLine(lines[0]);
    } else if lines != [] {
      var rest := lines[1..];
      assert forall i :: 0 <= i < |rest| ==> rest[i] == lines[i + 1];
      ReadWritten(rest);
      ReadOneLine(lines[0], WriteLines(rest));
    }
  }

  lemma {:induction false} WriteRead(text: string)
    ensures WriteLines(ReadLines(text)) == text
  {
    if '\n' in text {
      var end := IndexOf(text, '\n') + 1;
      WriteRead(text[end..]);
      assert ReadLines(text) == [text[..end]] + ReadLines(text[end..]);
      assert text == text[..end] + text[end..];
    } else if text != "" {
      assert [text][1..] == [];
    }
  }

  function CleanFile(text: string): string { WriteLines(Deduplicated(ReadLines(text))) }

  lemma CommentedIsLineLike(line: string, isLast: bool)
    requires LineLike(line, isLast)
    ensures LineLike(Commented(line), isLast)
  {
    assert forall k :: 2 <= k < |line| + 2 ==> Commented(line)[k] == line[k - 2];
  }

  lemma DeduplicatedIsFileLike(lines: seq<string>)
    requires FileLike(lines)
    ensures FileLike(Deduplicated(lines))
  {
    forall i | 0 <= i < |lines|
      ensures LineLike(Deduplicated(lines)[i], i == |lines| - 1)
    {
      CommentedIsLineLike(lines[i], i == |lines| - 1);
    }
  }

  /** The cleaned file reads back as the cleaned lines, as many as before, every variable with its value; and
      cleaning the file a second time changes nothing. */
  lemma CleanFileIsSound(text: string, name: string)
    ensures ReadLines(CleanFile(text)) == Deduplicated(ReadLines(text))
    ensures |ReadLines(CleanFile(text))| == |ReadLines(text)|
    ensures LastValue(ReadLines(CleanFile(text)), name) == LastValue(ReadLines(text), name)
    ensures CleanFile(CleanFile(text)) == CleanFile(text)
  {
    var lines := ReadLines(text);
    ReadIsFileLike(text);
    DeduplicatedIsFileLike(lines);
    ReadWritten(Deduplicated(lines));
    CleanupPreservesMeaning(lines, name);
    CleanupSettles(lines);
  }

  /** A file without superseded assignments is left as it is, to the letter. */
  lemma CleanFileKeepsCleanFiles(text: string)
    requires forall i :: 0 <= i < |ReadLines(text)| ==> !Superseded(Owners(ReadLines(text)), i)
    ensures CleanFile(text) == text
  {
    CleanupSettles(ReadLines(text));
    WriteRead(text);
  }
}
