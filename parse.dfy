/** Parsing of ROS message-definition text into schema types: splitting into
    lines, grouping at `==` separator lines, naming groups by their `MSG:`
    header, removing duplicate types and qualifying complex type names.

    The per-line grammar (ROS1) and the whole-group builder (ROS2) are not
    part of this model; they are parameters of `Dialect`, as is the schema
    equality used to remove duplicates. */
module Parse {
  import opened Wrappers
  import opened Strings
  import opened MsgDef

  /** How a group of lines becomes a type. */
  datatype Dialect =
    | Ros1(parseLine: string -> Result<Option<Field>>)
    | Ros2(buildRos2Type: seq<string> -> Result<MessageDefinition>)

  // ----- lines and groups -----

  function TrimAll(parts: seq<string>): (r: seq<string>)
    ensures |r| == |parts|
    ensures forall i :: 0 <= i < |r| ==> r[i] == Trim(parts[i])
  {
    if parts == [] then [] else [Trim(parts[0])] + TrimAll(parts[1..])
  }

  /** `text.split("\n").map(trim).filter(line => line)`: the non-blank lines, trimmed. */
  function Lines(text: string): (r: seq<string>)
    ensures forall i :: 0 <= i < |r| ==> r[i] != [] && Trim(r[i]) == r[i]
    ensures forall l :: l in Split(text, '\n') && Trim(l) != [] ==> Trim(l) in r
    ensures |r| <= |Split(text, '\n')|
    ensures r == NonEmpty(TrimAll(Split(text, '\n')))
  {
    var parts := Split(text, '\n');
    var trimmed := TrimAll(parts);
    TrimAllKeeps(parts);
    NonEmpty(trimmed)
  }

  /** Lines that are already trimmed, non-blank and free of newlines come back,
      in order and with repeats, from the text that joins them. */
  lemma LinesOfJoin(lines: seq<string>)
    requires forall i :: 0 <= i < |lines| ==> lines[i] != [] && Trim(lines[i]) == lines[i] && '\n' !in lines[i]
    ensures Lines(Join(lines, "\n")) == lines
  {
    if lines == [] {
      LinesOfEmpty();
    } else {
      SplitJoin(lines, '\n');
      TrimAllTrimmed(lines);
    }
  }

  lemma LinesOfEmpty()
    ensures Lines("") == []
  {
    assert Split("", '\n') == [""];
    assert AllWhiteSpace("");
    assert TrimAll([""]) == [""];
  }

  /** Every part's trim is in the trimmed list, and every entry there is already trimmed. */
  lemma TrimAllKeeps(parts: seq<string>)
    ensures forall w :: w in TrimAll(parts) ==> Trim(w) == w
    ensures forall l :: l in parts ==> Trim(l) in TrimAll(parts)
  {
    var trimmed := TrimAll(parts);
    forall w | w in trimmed ensures Trim(w) == w {
      var k :| 0 <= k < |trimmed| && trimmed[k] == w;
      TrimTrimmed(parts[k]);
    }
    forall l | l in parts ensures Trim(l) in trimmed {
      var k :| 0 <= k < |parts| && parts[k] == l;
      assert trimmed[k] == Trim(l);
    }
  }

  lemma TrimAllTrimmed(lines: seq<string>)
    requires forall i :: 0 <= i < |lines| ==> Trim(lines[i]) == lines[i]
    ensures TrimAll(lines) == lines
  {
  }

  /** Trimming twice is trimming once. */
  lemma TrimTrimmed(s: string)
    ensures Trim(Trim(s)) == Trim(s)
  {
    var t := Trim(s);
    if t != [] {
      assert TrimStart(t) == t;
      assert TrimEnd(t) == t;
    }
  }

  predicate IsComment(line: string) { StartsWith(line, "#") }

  predicate IsSeparator(line: string) { !IsComment(line) && StartsWith(line, "==") }

  /** The lines of each group in order, as the `forEach` over the lines forms them. */
  function Groups(lines: seq<string>): (g: seq<seq<string>>)
    ensures |g| >= 1
  {
    if lines == [] then [[]]
    else AddLine(Groups(lines[..|lines| - 1]), lines[|lines| - 1])
  }

  /** One line of the `forEach`: a comment is skipped, a separator opens a
      new group, any other line joins the open group. */
  function AddLine(groups: seq<seq<string>>, line: string): (g: seq<seq<string>>)
    requires |groups| >= 1
    ensures |groups| <= |g| && g[..|groups| - 1] == groups[..|groups| - 1]
  {
    if IsComment(line) then groups
    else if IsSeparator(line) then groups + [[]]
    else groups[..|groups| - 1] + [groups[|groups| - 1] + [line]]
  }

  function Separators(lines: seq<string>): nat {
    if lines == [] then 0
    else Separators(lines[..|lines| - 1]) + (if IsSeparator(lines[|lines| - 1]) then 1 else 0)
  }

  /** The lines that end up in some group: neither comments nor separators. */
  function Content(lines: seq<string>): seq<string> {
    if lines == [] then []
    else
      var line := lines[|lines| - 1];
      Content(lines[..|lines| - 1]) + (if IsComment(line) || IsSeparator(line) then [] else [line])
  }

  function Concat(groups: seq<seq<string>>): seq<string> {
    if groups == [] then [] else Concat(groups[..|groups| - 1]) + groups[|groups| - 1]
  }

  /** There is one group more than there are separator lines. */
  lemma {:induction false} GroupCount(lines: seq<string>)
    ensures |Groups(lines)| == Separators(lines) + 1
  {
    if lines != [] {
      GroupCount(lines[..|lines| - 1]);
    }
  }

  /** The groups hold exactly the content lines, in order. */
  lemma {:induction false} GroupsPartitionContent(lines: seq<string>)
    ensures Concat(Groups(lines)) == Content(lines)
  {
    if lines != [] {
      var front := Groups(lines[..|lines| - 1]);
      var line := lines[|lines| - 1];
      GroupsPartitionContent(lines[..|lines| - 1]);
      if IsSeparator(line) && !IsComment(line) {
        assert (front + [[]])[..|front|] == front;
      } else if !IsComment(line) {
        var init := front[..|front| - 1];
        var g := init + [front[|front| - 1] + [line]];
        assert g[..|g| - 1] == init;
        assert front[..|front| - 1] == init;
        assert Concat(front) == Concat(init) + front[|front| - 1];
      }
    }
  }

  /** A comment line anywhere changes no group. */
  lemma {:induction false} CommentLinesIgnored(before: seq<string>, comment: string, after: seq<string>)
    requires IsComment(comment)
    ensures Groups(before + [comment] + after) == Groups(before + after)
    decreases |after|
  {
    if after == [] {
      assert (before + [comment])[..|before|] == before;
      assert before + [comment] + after == before + [comment];
      assert before + after == before;
    } else {
      var x := before + [comment] + after;
      var y := before + after;
      var init := after[..|after| - 1];
      CommentLinesIgnored(before, comment, init);
      assert x[..|x| - 1] == before + [comment] + init;
      assert y[..|y| - 1] == before + init;
      GroupsSameLast(x, y);
    }
  }

  /** Two texts that agree on their last line and on the groups before it
      have the same groups. */
  lemma GroupsSameLast(x: seq<string>, y: seq<string>)
    requires x != [] && y != [] && x[|x| - 1] == y[|y| - 1]
    requires Groups(x[..|x| - 1]) == Groups(y[..|y| - 1])
    ensures Groups(x) == Groups(y)
  {
  }

  // ----- one group to one type -----

  /** `normalizeType`: the deprecated aliases `char` and `byte` become `uint8` and `int8`. */
  function NormalizeType(t: string): (r: string)
    ensures t == "char" ==> r == "uint8"
    ensures t == "byte" ==> r == "int8"
    ensures r != "char" && r != "byte"
    ensures t != "char" && t != "byte" ==> r == t
  {
    if t == "char" then "uint8" else if t == "byte" then "int8" else t
  }

  lemma NormalizeIdempotent(t: string)
    ensures NormalizeType(NormalizeType(t)) == NormalizeType(t)
  {
  }

  /** `simpleTokenization`: the words of a line once its comment is removed. */
  function SimpleTokenization(line: string): (r: seq<string>)
    ensures forall i :: 0 <= i < |r| ==> r[i] != [] && ' ' !in r[i] && '#' !in r[i]
    ensures forall w :: w in Split(StripComments(line), ' ') && w != [] ==> w in r
    ensures forall i :: 0 <= i < |r| ==> r[i] in Split(StripComments(line), ' ')
    ensures r == NonEmpty(Split(StripComments(line), ' '))
  {
    var stripped := StripComments(line);
    var words := Split(stripped, ' ');
    var r := NonEmpty(words);
    assert forall i :: 0 <= i < |r| ==> '#' !in r[i] by {
      forall i | 0 <= i < |r| ensures '#' !in r[i] {
        var k :| 0 <= k < |words| && words[k] == r[i];
        JoinHoldsParts(words, k, ' ');
      }
    }
    r
  }

  /** Words free of spaces, `#` and line breaks, joined by single spaces,
      tokenize back into themselves, with or without a trailing comment. */
  lemma TokenizeWords(words: seq<string>, comment: string)
    requires words != []
    requires forall i :: 0 <= i < |words| ==>
      words[i] != [] && ' ' !in words[i] && '#' !in words[i] && SingleLine(words[i])
    requires SingleLine(comment)
    ensures SimpleTokenization(Join(words, " ")) == words
    ensures SimpleTokenization(Join(words, " ") + " #" + comment) == words
  {
    JoinedWordsClean(words);
    TokenizePlain(words);
    TokenizeCommented(words, comment);
  }

  lemma TokenizePlain(words: seq<string>)
    requires words != []
    requires forall i :: 0 <= i < |words| ==> words[i] != [] && ' ' !in words[i]
    requires '#' !in Join(words, " ")
    ensures SimpleTokenization(Join(words, " ")) == words
  {
    SplitJoin(words, ' ');
  }

  lemma TokenizeCommented(words: seq<string>, comment: string)
    requires words != []
    requires forall i :: 0 <= i < |words| ==> words[i] != [] && ' ' !in words[i]
    requires '#' !in Join(words, " ") && SingleLine(Join(words, " ")) && SingleLine(comment)
    ensures SimpleTokenization(Join(words, " ") + " #" + comment) == words
  {
    CommentStripped(Join(words, " "), comment);
    JoinSnocEmpty(words, ' ');
    SpaceFreeSnoc(words);
    SplitJoin(words + [""], ' ');
    NonEmptyAppend(words, [""]);
  }

  lemma JoinedWordsClean(words: seq<string>)
    requires forall i :: 0 <= i < |words| ==> '#' !in words[i] && SingleLine(words[i])
    ensures '#' !in Join(words, " ") && SingleLine(Join(words, " "))
  {
    JoinAvoids(words, ' ', ch => ch == '#');
    JoinAvoids(words, ' ', IsLineTerminator);
  }

  lemma SpaceFreeSnoc(words: seq<string>)
    requires forall i :: 0 <= i < |words| ==> ' ' !in words[i]
    ensures forall k :: 0 <= k < |words + [""]| ==> ' ' !in (words + [""])[k]
  {
    forall k | 0 <= k < |words + [""]| ensures ' ' !in (words + [""])[k] {
      if k < |words| { assert (words + [""])[k] == words[k]; }
    }
  }

  /** On one line, a comment after a space leaves the text and that space. */
  lemma CommentStripped(line: string, comment: string)
    requires '#' !in line && SingleLine(line) && SingleLine(comment)
    ensures StripComments(line + " #" + comment) == line + " "
  {
    var commented := line + " #" + comment;
    assert SingleLine(commented) by {
      forall k | 0 <= k < |commented| ensures !IsLineTerminator(commented[k]) {
        if k < |line| { assert commented[k] == line[k]; }
        if k >= |line| + 2 { assert commented[k] == comment[k - |line| - 2]; }
      }
    }
    assert commented[..|line| + 1] == line + " ";
    FirstHash(commented, |line| + 1);
  }

  lemma FirstHash(s: string, k: nat)
    requires k < |s| && s[k] == '#' && '#' !in s[..k]
    ensures IndexOf(s, '#') == k
  {
  }

  /** Joining one more empty part adds one separator. */
  lemma {:induction false} JoinSnocEmpty(parts: seq<string>, c: char)
    requires parts != []
    ensures Join(parts + [""], [c]) == Join(parts, [c]) + [c]
  {
    if |parts| == 1 {
      assert Join(parts + [""], [c]) == parts[0] + [c] + Join([""], [c]);
    } else {
      assert (parts + [""])[1..] == parts[1..] + [""];
      JoinSnocEmpty(parts[1..], c);
    }
  }

  /** A joined text holds only characters of its parts and the separator. */
  lemma {:induction false} JoinAvoids(parts: seq<string>, c: char, bad: char -> bool)
    requires !bad(c)
    requires forall i, k :: 0 <= i < |parts| && 0 <= k < |parts[i]| ==> !bad(parts[i][k])
    ensures forall k :: 0 <= k < |Join(parts, [c])| ==> !bad(Join(parts, [c])[k])
  {
    if |parts| > 1 {
      JoinAvoids(parts[1..], c, bad);
      var j := Join(parts, [c]);
      var tail := Join(parts[1..], [c]);
      assert j == parts[0] + [c] + tail;
      forall k | 0 <= k < |j| ensures !bad(j[k]) {
        if k > |parts[0]| { assert j[k] == tail[k - |parts[0]| - 1]; }
      }
    }
  }

  /** Every part of a joined sequence occurs in the joined text. */
  lemma {:induction false} JoinHoldsParts(parts: seq<string>, k: nat, c: char)
    requires k < |parts|
    ensures forall ch :: ch in parts[k] ==> ch in Join(parts, [c])
  {
    if |parts| > 1 {
      if k > 0 {
        JoinHoldsParts(parts[1..], k - 1, c);
      }
      assert Join(parts, [c]) == parts[0] + [c] + Join(parts[1..], [c]);
    }
  }

  /** The name a `MSG:` line gives its group: its second word, if any. */
  function HeaderName(line: string): Option<string> {
    var tokens := SimpleTokenization(line);
    if |tokens| >= 2 then Some(Trim(tokens[1])) else None
  }

  /** The type `buildType` makes of a group of ROS1 lines. */
  function Ros1Type(parseLine: string -> Result<Option<Field>>, lines: seq<string>): Result<MessageDefinition> {
    if lines == [] then Ok(MessageDefinition(None, []))
    else
      var prev :- Ros1Type(parseLine, lines[..|lines| - 1]);
      var line := lines[|lines| - 1];
      if StartsWith(line, "MSG:") then Ok(MessageDefinition(HeaderName(line), prev.definitions))
      else
        var parsed :- parseLine(line);
        match parsed
        case None => Ok(prev)
        case Some(f) => Ok(MessageDefinition(prev.name, prev.definitions + [f.(typ := NormalizeType(f.typ))]))
  }

  /** `buildType`: fields from every line the grammar accepts, with their
      types normalized; the last `MSG:` line names the type. */
  method BuildType(parseLine: string -> Result<Option<Field>>, lines: seq<string>) returns (r: Result<MessageDefinition>)
    ensures r == Ros1Type(parseLine, lines)
  {
    var definitions: seq<Field> := [];
    var complexTypeName: Option<string> := None;
    for i := 0 to |lines|
      invariant Ros1Type(parseLine, lines[..i]) == Ok(MessageDefinition(complexTypeName, definitions))
    {
      var line := lines[i];
      assert lines[..i + 1][..i] == lines[..i];
      if StartsWith(line, "MSG:") {
        complexTypeName := HeaderName(line);
      } else {
        var results := parseLine(line);
        if results.Err? {
          assert Ros1Type(parseLine, lines[..i + 1]).Err?;
          RosTypeErrorPersists(parseLine, lines, i + 1);
          return Err(results.error);
        }
        match results.value
        case None =>
        case Some(result) =>
          definitions := definitions + [result.(typ := NormalizeType(result.typ))];
      }
    }
    assert lines[..|lines|] == lines;
    return Ok(MessageDefinition(complexTypeName, definitions));
  }

  /** A line that fails to parse fails the whole group with the same error. */
  lemma {:induction false} RosTypeErrorPersists(parseLine: string -> Result<Option<Field>>, lines: seq<string>, k: nat)
    requires k <= |lines|
    requires Ros1Type(parseLine, lines[..k]).Err?
    ensures Ros1Type(parseLine, lines) == Ros1Type(parseLine, lines[..k])
    decreases |lines| - k
  {
    if k < |lines| {
      var front := lines[..|lines| - 1];
      assert front[..k] == lines[..k];
      RosTypeErrorPersists(parseLine, front, k);
    } else {
      assert lines[..k] == lines;
    }
  }

  /** A group without a `MSG:` line is unnamed, and no field type is an alias. */
  lemma {:induction false} Ros1TypeFacts(parseLine: string -> Result<Option<Field>>, lines: seq<string>)
    requires Ros1Type(parseLine, lines).Ok?
    ensures (forall i :: 0 <= i < |lines| ==> !StartsWith(lines[i], "MSG:")) ==> Ros1Type(parseLine, lines).value.name.None?
    ensures forall f :: f in Ros1Type(parseLine, lines).value.definitions ==> f.typ != "char" && f.typ != "byte"
  {
    if lines != [] {
      Ros1TypeFacts(parseLine, lines[..|lines| - 1]);
    }
  }

  /** A `MSG: pkg/Name` header as a group's last header names the type `pkg/Name`. */
  lemma {:induction false} HeaderNamesType(parseLine: string -> Result<Option<Field>>, lines: seq<string>, name: string)
    requires |lines| > 0 && lines[|lines| - 1] == "MSG: " + name
    requires name != [] && ' ' !in name && '#' !in name && Trim(name) == name
    requires Ros1Type(parseLine, lines[..|lines| - 1]).Ok?
    ensures Ros1Type(parseLine, lines).Ok? && Ros1Type(parseLine, lines).value.name == Some(name)
  {
    HeaderTokens(name);
  }

  /** The tokens of a `MSG: pkg/Name` line. */
  lemma HeaderTokens(name: string)
    requires name != [] && ' ' !in name && '#' !in name && Trim(name) == name
    ensures var line := "MSG: " + name;
      StartsWith(line, "MSG:") && '#' !in line && SimpleTokenization(line) == ["MSG:", name]
  {
    var line := "MSG: " + name;
    assert StartsWith(line, "MSG:") by { assert line[..4] == "MSG:"; }
    assert '#' !in "MSG: ";
    HeaderSplit(name);
  }

  /** A `MSG: pkg/Name` line splits at its one space. */
  lemma HeaderSplit(name: string)
    requires ' ' !in name
    ensures Split("MSG: " + name, ' ') == ["MSG:", name]
  {
    var line := "MSG: " + name;
    assert line[..4] == "MSG:" && line[4] == ' ' && line[5..] == name;
    assert ' ' !in line[..4];
    assert IndexOf(line, ' ') == 4;
  }

  function TypeOfGroup(d: Dialect, lines: seq<string>): Result<MessageDefinition> {
    match d
    case Ros1(parseLine) => Ros1Type(parseLine, lines)
    case Ros2(build) => build(lines)
  }

  method BuildGroup(d: Dialect, lines: seq<string>) returns (r: Result<MessageDefinition>)
    ensures r == TypeOfGroup(d, lines)
  {
    match d
    case Ros1(parseLine) =>
      r := BuildType(parseLine, lines);
    case Ros2(build) =>
      r := build(lines);
  }

  /** The types of the groups, or the first group's error. */
  function BuildAll(d: Dialect, groups: seq<seq<string>>): (r: Result<seq<MessageDefinition>>)
    ensures r.Ok? ==> |r.value| == |groups|
  {
    if groups == [] then Ok([])
    else
      var prev :- BuildAll(d, groups[..|groups| - 1]);
      var t :- TypeOfGroup(d, groups[|groups| - 1]);
      Ok(prev + [t])
  }

  // ----- removing duplicates -----

  /** The `filter` over `seenTypes`: a type is kept unless it equals one kept before it. */
  function FirstOccurrences(types: seq<MessageDefinition>, eq: (MessageDefinition, MessageDefinition) -> bool):
    (r: seq<MessageDefinition>)
    ensures |r| <= |types|
    ensures forall t :: t in r ==> t in types
  {
    if types == [] then []
    else
      var kept := FirstOccurrences(types[..|types| - 1], eq);
      var t := types[|types| - 1];
      assert types == types[..|types| - 1] + [t];
      if exists o :: o in kept && eq(t, o) then kept else kept + [t]
  }

  /** `a` is `b` with some elements left out. */
  predicate Subsequence(a: seq<MessageDefinition>, b: seq<MessageDefinition>) {
    if a == [] then true
    else if b == [] then false
    else if a[|a| - 1] == b[|b| - 1] then Subsequence(a[..|a| - 1], b[..|b| - 1])
    else Subsequence(a, b[..|b| - 1])
  }

  lemma {:induction false} SubsequenceExtend(a: seq<MessageDefinition>, b: seq<MessageDefinition>, x: MessageDefinition)
    requires Subsequence(a, b)
    ensures Subsequence(a, b + [x]) && Subsequence(a + [x], b + [x])
  {
    assert (a + [x])[..|a|] == a && (b + [x])[..|b|] == b;
    if a != [] {
      SubsequenceNotLast(a, b, x);
    }
  }

  lemma {:induction false} SubsequenceNotLast(a: seq<MessageDefinition>, b: seq<MessageDefinition>, x: MessageDefinition)
    requires Subsequence(a, b)
    ensures Subsequence(a, b + [x])
    decreases |b|, 1
  {
    assert (b + [x])[..|b|] == b;
    if a != [] && a[|a| - 1] == x {
      SubsequenceDropLast(a, b);
    }
  }

  lemma {:induction false} SubsequenceDropLast(a: seq<MessageDefinition>, b: seq<MessageDefinition>)
    requires a != [] && Subsequence(a, b)
    ensures Subsequence(a[..|a| - 1], b)
    decreases |b|, 0
  {
    var b' := b[..|b| - 1];
    assert b' + [b[|b| - 1]] == b;
    if a[|a| - 1] == b[|b| - 1] {
      SubsequenceNotLast(a[..|a| - 1], b', b[|b| - 1]);
    } else {
      SubsequenceDropLast(a, b');
      SubsequenceNotLast(a[..|a| - 1], b', b[|b| - 1]);
    }
  }

  /** What dedup promises of `r`, the types kept from `types`: they are in
      their original order, no kept type equals an earlier kept one, and a
      type is dropped only when it equals a kept one. */
  ghost predicate Deduplicated(types: seq<MessageDefinition>, r: seq<MessageDefinition>,
    eq: (MessageDefinition, MessageDefinition) -> bool)
  {
    && Subsequence(r, types)
    && (forall i, j :: 0 <= i < j < |r| ==> !eq(r[j], r[i]))
    && (forall t :: t in types ==> t in r || exists o :: o in r && eq(t, o))
  }

  /** Dedup keeps types in their original order, keeps no type equal to an
      earlier kept one, and drops a type only when it equals a kept one. */
  lemma FirstOccurrencesFacts(types: seq<MessageDefinition>, eq: (MessageDefinition, MessageDefinition) -> bool)
    ensures Subsequence(FirstOccurrences(types, eq), types)
    ensures var r := FirstOccurrences(types, eq);
      forall i, j :: 0 <= i < j < |r| ==> !eq(r[j], r[i])
    ensures var r := FirstOccurrences(types, eq);
      forall t :: t in types ==> t in r || exists o :: o in r && eq(t, o)
    ensures var r := FirstOccurrences(types, eq);
      types != [] ==> r != [] && r[0] == types[0]
  {
    DedupInvariant(types, eq);
  }

  lemma {:induction false} DedupInvariant(types: seq<MessageDefinition>, eq: (MessageDefinition, MessageDefinition) -> bool)
    ensures Deduplicated(types, FirstOccurrences(types, eq), eq)
    ensures RootKept(types, FirstOccurrences(types, eq))
  {
    if types != [] {
      var front := types[..|types| - 1];
      var t := types[|types| - 1];
      assert types == front + [t];
      DedupInvariant(front, eq);
      FirstOccurrencesStep(front, t, eq);
      RootKeptStep(front, t, eq);
    }
  }

  /** The first type, if any, is kept first. */
  ghost predicate RootKept(types: seq<MessageDefinition>, r: seq<MessageDefinition>) {
    types != [] ==> r != [] && r[0] == types[0]
  }

  lemma RootKeptStep(front: seq<MessageDefinition>, t: MessageDefinition, eq: (MessageDefinition, MessageDefinition) -> bool)
    requires RootKept(front, FirstOccurrences(front, eq))
    ensures RootKept(front + [t], FirstOccurrences(front + [t], eq))
  {
    FirstOccurrencesLast(front, t, eq);
    if front != [] {
      assert (front + [t])[0] == front[0];
    }
  }

  /** Dedup of a prefix is a prefix of the dedup: a type's fate is settled
      by the types before it, whatever follows. */
  lemma FirstOccurrencesGrow(types: seq<MessageDefinition>, k: nat,
    eq: (MessageDefinition, MessageDefinition) -> bool)
    requires k <= |types|
    ensures var p := FirstOccurrences(types[..k], eq); var r := FirstOccurrences(types, eq);
      |p| <= |r| && r[..|p|] == p
  {
    var p := FirstOccurrences(types[..k], eq);
    var n := k;
    while n < |types|
      invariant k <= n <= |types|
      invariant var q := FirstOccurrences(types[..n], eq); |p| <= |q| && q[..|p|] == p
    {
      assert types[..n + 1] == types[..n] + [types[n]];
      FirstOccurrencesLast(types[..n], types[n], eq);
      PrefixExtend(p, FirstOccurrences(types[..n], eq), types[n]);
      n := n + 1;
    }
    assert types[..n] == types;
  }

  lemma PrefixExtend(p: seq<MessageDefinition>, q: seq<MessageDefinition>, x: MessageDefinition)
    requires |p| <= |q| && q[..|p|] == p
    ensures (q + [x])[..|p|] == p
  {
    assert (q + [x])[..|p|] == q[..|p|];
  }

  /** `types[k]` has no equal among the types before it. */
  ghost predicate FirstOf(types: seq<MessageDefinition>, eq: (MessageDefinition, MessageDefinition) -> bool, k: int)
    requires 0 <= k < |types|
  {
    forall m :: 0 <= m < k ==> !eq(types[k], types[m])
  }

  ghost predicate Transitive(eq: (MessageDefinition, MessageDefinition) -> bool) {
    forall a, b, c :: eq(a, b) && eq(b, c) ==> eq(a, c)
  }

  /** `r[i]` is `types[idx[i]]`, at strictly increasing positions. */
  ghost predicate Positions(types: seq<MessageDefinition>, r: seq<MessageDefinition>, idx: seq<int>) {
    && |idx| == |r|
    && (forall i :: 0 <= i < |idx| ==> 0 <= idx[i] < |types| && r[i] == types[idx[i]])
    && (forall i, j :: 0 <= i < j < |idx| ==> idx[i] < idx[j])
  }

  /** The positions in `idx` are exactly those of types with no equal before them. */
  ghost predicate FirstsAt(types: seq<MessageDefinition>, eq: (MessageDefinition, MessageDefinition) -> bool, idx: seq<int>) {
    forall k :: 0 <= k < |types| ==> (k in idx <==> FirstOf(types, eq, k))
  }

  /** For a transitive relation, such as the structural equality the parser
      uses, dedup keeps exactly the types with no equal before them, at
      strictly increasing positions, that is, in their original order. */
  lemma {:induction false} FirstOccurrenceIndices(types: seq<MessageDefinition>,
    eq: (MessageDefinition, MessageDefinition) -> bool) returns (idx: seq<int>)
    requires Transitive(eq)
    ensures Positions(types, FirstOccurrences(types, eq), idx)
    ensures FirstsAt(types, eq, idx)
  {
    if types == [] {
      return [];
    }
    var n := |types| - 1;
    var front := types[..n];
    var t := types[n];
    assert types == front + [t];
    var pre := FirstOccurrenceIndices(front, eq);
    var kept := FirstOccurrences(front, eq);
    FirstOccurrencesLast(front, t, eq);
    if exists o :: o in kept && eq(t, o) {
      IndicesDrop(types, kept, pre, eq);
      idx := pre;
    } else {
      NewIsFirst(front, t, eq);
      IndicesKeep(types, kept, pre, eq);
      idx := pre + [n];
    }
  }

  /** A type equal to a kept one is not a first occurrence, and the positions stay. */
  lemma IndicesDrop(types: seq<MessageDefinition>, kept: seq<MessageDefinition>, pre: seq<int>,
    eq: (MessageDefinition, MessageDefinition) -> bool)
    requires types != []
    requires Positions(types[..|types| - 1], kept, pre) && FirstsAt(types[..|types| - 1], eq, pre)
    requires exists o :: o in kept && eq(types[|types| - 1], o)
    ensures Positions(types, kept, pre) && FirstsAt(types, eq, pre)
  {
    var n := |types| - 1;
    FirstOfPrefix(types, n, eq);
    var o :| o in kept && eq(types[n], o);
    var i :| 0 <= i < |kept| && kept[i] == o;
    assert types[pre[i]] == o;
    assert !FirstOf(types, eq, n);
  }

  /** A first occurrence is kept at the next position. */
  lemma IndicesKeep(types: seq<MessageDefinition>, kept: seq<MessageDefinition>, pre: seq<int>,
    eq: (MessageDefinition, MessageDefinition) -> bool)
    requires types != []
    requires Positions(types[..|types| - 1], kept, pre) && FirstsAt(types[..|types| - 1], eq, pre)
    requires FirstOf(types, eq, |types| - 1)
    ensures Positions(types, kept + [types[|types| - 1]], pre + [|types| - 1])
    ensures FirstsAt(types, eq, pre + [|types| - 1])
  {
    FirstOfPrefix(types, |types| - 1, eq);
  }

  /** Under a transitive relation, a type equal to no kept type equals no earlier type. */
  lemma NewIsFirst(front: seq<MessageDefinition>, t: MessageDefinition, eq: (MessageDefinition, MessageDefinition) -> bool)
    requires Transitive(eq)
    requires !exists o :: o in FirstOccurrences(front, eq) && eq(t, o)
    ensures FirstOf(front + [t], eq, |front|)
  {
    var kept := FirstOccurrences(front, eq);
    FirstOccurrencesFacts(front, eq);
    forall m | 0 <= m < |front|
      ensures !eq((front + [t])[|front|], (front + [t])[m])
    {
      assert (front + [t])[m] == front[m] && front[m] in front;
      if front[m] !in kept {
        var o :| o in kept && eq(front[m], o);
        assert eq(t, front[m]) ==> eq(t, o);
      }
    }
  }

  /** Whether a type has an equal before it does not depend on what follows. */
  lemma FirstOfPrefix(types: seq<MessageDefinition>, n: nat, eq: (MessageDefinition, MessageDefinition) -> bool)
    requires n <= |types|
    ensures forall k :: 0 <= k < n ==> (FirstOf(types[..n], eq, k) <==> FirstOf(types, eq, k))
  {
  }

  /** One more type keeps the dedup facts. */
  lemma FirstOccurrencesStep(front: seq<MessageDefinition>, t: MessageDefinition,
    eq: (MessageDefinition, MessageDefinition) -> bool)
    requires Deduplicated(front, FirstOccurrences(front, eq), eq)
    ensures Deduplicated(front + [t], FirstOccurrences(front + [t], eq), eq)
  {
    var kept := FirstOccurrences(front, eq);
    FirstOccurrencesLast(front, t, eq);
    if exists o :: o in kept && eq(t, o) {
      var o :| o in kept && eq(t, o);
      DedupDrop(front, t, kept, eq, o);
    } else {
      DedupKeep(front, t, kept, eq);
    }
  }

  /** The dedup of `front + [t]` in terms of the dedup of `front`. */
  lemma FirstOccurrencesLast(front: seq<MessageDefinition>, t: MessageDefinition,
    eq: (MessageDefinition, MessageDefinition) -> bool)
    ensures var kept := FirstOccurrences(front, eq);
      FirstOccurrences(front + [t], eq) == if exists o :: o in kept && eq(t, o) then kept else kept + [t]
  {
    assert (front + [t])[..|front|] == front;
  }

  /** A type equal to a kept one is dropped. */
  lemma DedupDrop(front: seq<MessageDefinition>, t: MessageDefinition, kept: seq<MessageDefinition>,
    eq: (MessageDefinition, MessageDefinition) -> bool, o: MessageDefinition)
    requires Deduplicated(front, kept, eq)
    requires o in kept && eq(t, o)
    ensures Deduplicated(front + [t], kept, eq)
  {
    SubsequenceExtend(kept, front, t);
    forall t' | t' in front + [t]
      ensures t' in kept || exists o' :: o' in kept && eq(t', o')
    {
      if t' != t {
        assert t' in front;
      }
    }
  }

  /** A type equal to no kept one is kept. */
  lemma DedupKeep(front: seq<MessageDefinition>, t: MessageDefinition, kept: seq<MessageDefinition>,
    eq: (MessageDefinition, MessageDefinition) -> bool)
    requires Deduplicated(front, kept, eq)
    requires !exists o :: o in kept && eq(t, o)
    ensures Deduplicated(front + [t], kept + [t], eq)
  {
    SubsequenceExtend(kept, front, t);
    var r := kept + [t];
    forall i, j | 0 <= i < j < |r|
      ensures !eq(r[j], r[i])
    {
      if j == |kept| {
        assert r[i] == kept[i] && kept[i] in kept;
      } else {
        assert r[j] == kept[j] && r[i] == kept[i];
      }
    }
    forall t' | t' in front + [t]
      ensures t' in r || exists o :: o in r && eq(t', o)
    {
      if t' != t {
        assert t' in front;
        if t' !in kept {
          var o :| o in kept && eq(t', o);
          assert o in r;
        }
      }
    }
  }

  /** With equality as the relation, the result lists the distinct values of
      the input in the order of their first occurrences. */
  lemma StructuralDedup(types: seq<MessageDefinition>) returns (idx: seq<int>)
    ensures var r := FirstOccurrences(types, (a, b) => a == b);
      && (forall i, j :: 0 <= i < j < |r| ==> r[i] != r[j])
      && (forall t :: t in types <==> t in r)
      && |idx| == |r|
      && (forall i :: 0 <= i < |idx| ==> 0 <= idx[i] < |types| && r[i] == types[idx[i]])
      && (forall i, j :: 0 <= i < j < |idx| ==> idx[i] < idx[j])
      && (forall k :: 0 <= k < |types| ==> (k in idx <==> types[k] !in types[..k]))
  {
    var eq := (a: MessageDefinition, b: MessageDefinition) => a == b;
    FirstOccurrencesFacts(types, eq);
    idx := FirstOccurrenceIndices(types, eq);
    forall k | 0 <= k < |types|
      ensures FirstOf(types, eq, k) <==> types[k] !in types[..k]
    {
      if types[k] in types[..k] {
        var m :| 0 <= m < k && types[..k][m] == types[k];
        assert types[m] == types[k];
      }
    }
  }

  /** The duplicate filter, as a loop over `seenTypes`. */
  method UniqueTypes(types: seq<MessageDefinition>, eq: (MessageDefinition, MessageDefinition) -> bool)
    returns (unique: seq<MessageDefinition>)
    ensures unique == FirstOccurrences(types, eq)
  {
    var seenTypes: seq<MessageDefinition> := [];
    for i := 0 to |types|
      invariant seenTypes == FirstOccurrences(types[..i], eq)
    {
      var definition := types[i];
      assert types[..i + 1][..i] == types[..i];
      var found := false;
      for k := 0 to |seenTypes|
        invariant found <==> exists o :: o in seenTypes[..k] && eq(definition, o)
      {
        if eq(definition, seenTypes[k]) {
          found := true;
        }
        assert seenTypes[..k + 1] == seenTypes[..k] + [seenTypes[k]];
      }
      assert seenTypes[..|seenTypes|] == seenTypes;
      if !found {
        seenTypes := seenTypes + [definition];
      }
    }
    assert types[..|types|] == types;
    return seenTypes;
  }

  // ----- qualifying complex type names -----

  /** `name?.split("/").slice(0, -1).join("/")`: everything before the last `/`. */
  function Namespace(name: Option<string>): Option<string> {
    match name
    case None => None
    case Some(n) =>
      var parts := Split(n, '/');
      Some(Join(parts[..|parts| - 1], "/"))
  }

  /** A name without `/` has the empty (so falsy) namespace. */
  lemma UnqualifiedNamespace(n: string)
    requires '/' !in n
    ensures Namespace(Some(n)) == Some("")
  {
  }

  /** `package/Type` has the namespace `package`. */
  lemma QualifiedNamespace(pkg: string, base: string)
    requires '/' !in pkg && '/' !in base
    ensures Namespace(Some(pkg + "/" + base)) == Some(pkg)
  {
    SplitJoin([pkg, base], '/');
    assert Join([pkg, base], "/") == pkg + "/" + base;
  }

  /** Which types a search for `name` from within namespace `ns` picks. */
  predicate TypeMatches(t: MessageDefinition, name: string, ns: Option<string>) {
    var typeName := NameOrEmpty(t);
    if name == [] then typeName == []
    else if '/' in name then typeName == name
    else if name == "Header" then typeName == "std_msgs/Header"
    else if ns.Some? && ns.value != [] then typeName == ns.value + "/" + name
    else EndsWith(typeName, "/" + name)
  }

  function Candidates(types: seq<MessageDefinition>, name: string, ns: Option<string>): (r: seq<MessageDefinition>)
    ensures forall t :: t in r <==> t in types && TypeMatches(t, name, ns)
  {
    if types == [] then []
    else
      var last := types[|types| - 1];
      assert types == types[..|types| - 1] + [last];
      Candidates(types[..|types| - 1], name, ns) + (if TypeMatches(last, name, ns) then [last] else [])
  }

  /** `findTypeByName`: the one type the search picks; an error for none or several. */
  function FindTypeByName(types: seq<MessageDefinition>, name: string, ns: Option<string>): (r: Result<MessageDefinition>)
    ensures r.Ok? <==> |Candidates(types, name, ns)| == 1
    ensures r.Ok? ==> r.value in types && TypeMatches(r.value, name, ns)
    ensures r.Ok? ==> forall t :: t in types && TypeMatches(t, name, ns) ==> t == r.value
  {
    var matches := Candidates(types, name, ns);
    if |matches| == 0 then Err("Expected 1 top level type definition for '" + name + "' but found 0")
    else if |matches| > 1 then Err("Cannot unambiguously determine fully-qualified type name for '" + name + "'")
    else
      assert matches[0] in matches;
      assert forall t :: t in matches ==> t == matches[0];
      Ok(matches[0])
  }

  /** The four resolution rules, seen from a successful result. */
  lemma ResolutionRules(types: seq<MessageDefinition>, name: string, ns: Option<string>)
    requires name != [] && FindTypeByName(types, name, ns).Ok?
    ensures var found := NameOrEmpty(FindTypeByName(types, name, ns).value);
      && ('/' in name ==> found == name)
      && ('/' !in name && name == "Header" ==> found == "std_msgs/Header")
      && ('/' !in name && name != "Header" && ns.Some? && ns.value != [] ==> found == ns.value + "/" + name)
      && ('/' !in name && name != "Header" && (ns.None? || ns.value == []) ==> EndsWith(found, "/" + name))
  {
  }

  /** Only names take part in a search. */
  lemma {:induction false} CandidatesByName(a: seq<MessageDefinition>, b: seq<MessageDefinition>, name: string, ns: Option<string>)
    requires |a| == |b| && forall i :: 0 <= i < |a| ==> a[i].name == b[i].name
    ensures |Candidates(a, name, ns)| == |Candidates(b, name, ns)|
    ensures forall i :: 0 <= i < |Candidates(a, name, ns)| ==> Candidates(a, name, ns)[i].name == Candidates(b, name, ns)[i].name
  {
    if a != [] {
      var a', b' := a[..|a| - 1], b[..|b| - 1];
      var la, lb := a[|a| - 1], b[|b| - 1];
      CandidatesByName(a', b', name, ns);
      CandidatesLast(a, name, ns);
      CandidatesLast(b, name, ns);
      assert NameOrEmpty(la) == NameOrEmpty(lb);
      if TypeMatches(la, name, ns) {
        SameNamesAppend(Candidates(a', name, ns), Candidates(b', name, ns), la, lb);
      }
    }
  }

  /** The search over `types` in terms of the search over all but the last type. */
  lemma CandidatesLast(types: seq<MessageDefinition>, name: string, ns: Option<string>)
    requires types != []
    ensures var last := types[|types| - 1];
      Candidates(types, name, ns) == Candidates(types[..|types| - 1], name, ns) + (if TypeMatches(last, name, ns) then [last] else [])
  {
  }

  lemma SameNamesAppend(p: seq<MessageDefinition>, q: seq<MessageDefinition>, x: MessageDefinition, y: MessageDefinition)
    requires |p| == |q| && forall i :: 0 <= i < |p| ==> p[i].name == q[i].name
    requires x.name == y.name
    ensures forall i :: 0 <= i < |p| + 1 ==> (p + [x])[i].name == (q + [y])[i].name
  {
  }

  /** A field after `fixupTypes`: a complex field takes the full name of the
      type it resolves to from within the namespace of its container. */
  function FixedField(types: seq<MessageDefinition>, ns: Option<string>, f: Field): (r: Result<Field>)
    ensures r.Ok? && !f.isComplex ==> r.value == f
    ensures r.Ok? ==> r.value == f.(typ := r.value.typ)
    ensures var found := FindTypeByName(types, f.typ, ns);
      r.Ok? && f.isComplex ==> found.Ok? && found.value.name == Some(r.value.typ)
    ensures var found := FindTypeByName(types, f.typ, ns);
      r.Err? <==> f.isComplex && (found.Err? || found.value.name.None?)
  {
    if f.isComplex then
      var t :- FindTypeByName(types, f.typ, ns);
      if t.name.None? then Err("Missing type definition for " + f.typ) else Ok(f.(typ := t.name.value))
    else Ok(f)
  }

  function FixedFields(types: seq<MessageDefinition>, ns: Option<string>, fs: seq<Field>): (r: Result<seq<Field>>)
    ensures r.Ok? ==> |r.value| == |fs|
    ensures r.Ok? ==> forall j :: 0 <= j < |fs| ==> FixedField(types, ns, fs[j]) == Ok(r.value[j])
  {
    if fs == [] then Ok([])
    else
      var prev :- FixedFields(types, ns, fs[..|fs| - 1]);
      var f :- FixedField(types, ns, fs[|fs| - 1]);
      Ok(prev + [f])
  }

  /** Every type after `fixupTypes`, or the first resolution error. */
  function FixedTypes(types: seq<MessageDefinition>, upTo: nat): (r: Result<seq<MessageDefinition>>)
    requires upTo <= |types|
    ensures r.Ok? ==> |r.value| == upTo
    ensures r.Ok? ==> forall i :: 0 <= i < upTo ==> r.value[i].name == types[i].name
  {
    if upTo == 0 then Ok([])
    else
      var prev :- FixedTypes(types, upTo - 1);
      var t := types[upTo - 1];
      var defs :- FixedFields(types, Namespace(t.name), t.definitions);
      var r := prev + [MessageDefinition(t.name, defs)];
      assert forall i :: 0 <= i < upTo - 1 ==> r[i] == prev[i];
      Ok(r)
  }

  /** `fixupTypes` rewrites only the types of complex fields, each to the
      name of the one type it resolves to from its container's namespace, and
      keeps every name, field order and other field attribute. */
  lemma FixedTypesShape(types: seq<MessageDefinition>)
    requires FixedTypes(types, |types|).Ok?
    ensures var r := FixedTypes(types, |types|).value;
      forall i :: 0 <= i < |types| ==>
        && r[i].name == types[i].name
        && |r[i].definitions| == |types[i].definitions|
        && forall j :: 0 <= j < |types[i].definitions| ==>
          var f := types[i].definitions[j];
          && r[i].definitions[j] == f.(typ := r[i].definitions[j].typ)
          && (!f.isComplex ==> r[i].definitions[j] == f)
          && (f.isComplex ==>
                FindTypeByName(types, f.typ, Namespace(types[i].name)).Ok?
                && FindTypeByName(types, f.typ, Namespace(types[i].name)).value.name == Some(r[i].definitions[j].typ))
  {
    FixedTypesElements(types, |types|);
  }

  lemma {:induction false} FixedTypesElements(types: seq<MessageDefinition>, upTo: nat)
    requires upTo <= |types| && FixedTypes(types, upTo).Ok?
    ensures forall i :: 0 <= i < upTo ==>
      FixedFields(types, Namespace(types[i].name), types[i].definitions) == Ok(FixedTypes(types, upTo).value[i].definitions)
  {
    if upTo > 0 {
      var prev := FixedTypesStep(types, upTo);
      var r := FixedTypes(types, upTo).value;
      FixedTypesElements(types, upTo - 1);
      forall i | 0 <= i < upTo
        ensures FixedFields(types, Namespace(types[i].name), types[i].definitions) == Ok(r[i].definitions)
      {
        if i < upTo - 1 {
          assert r[i] == prev[i];
        }
      }
    }
  }

  /** One more type fixed: the earlier ones are kept and its fields are appended. */
  lemma FixedTypesStep(types: seq<MessageDefinition>, upTo: nat) returns (prev: seq<MessageDefinition>)
    requires 0 < upTo <= |types| && FixedTypes(types, upTo).Ok?
    ensures FixedTypes(types, upTo - 1) == Ok(prev)
    ensures var t := types[upTo - 1];
      && FixedFields(types, Namespace(t.name), t.definitions).Ok?
      && FixedTypes(types, upTo).value
         == prev + [MessageDefinition(t.name, FixedFields(types, Namespace(t.name), t.definitions).value)]
  {
    prev := FixedTypes(types, upTo - 1).value;
  }


  /** `fixupTypes` on a list of types, rewriting field types in place. */
  method FixupTypes(types: array<MessageDefinition>) returns (r: Result<()>)
    modifies types
    ensures r.Ok? <==> FixedTypes(old(types[..]), types.Length).Ok?
    ensures r.Ok? ==> types[..] == FixedTypes(old(types[..]), types.Length).value
  {
    ghost var original := types[..];
    for i := 0 to types.Length
      invariant FixedTypes(original, i).Ok?
      invariant types[..i] == FixedTypes(original, i).value
      invariant types[i..] == original[i..]
    {
      ghost var rest := types[i..];
      var t := types[i];
      assert t == original[i] by { assert types[i..][0] == original[i..][0]; }
      var fixedDefinitions := FixupAt(types[..], i, original);
      if fixedDefinitions.Err? {
        FixedTypesFieldError(original, i + 1);
        FixedTypesErrorPersists(original, i + 1, types.Length);
        return Err(fixedDefinitions.error);
      }
      types[i] := MessageDefinition(t.name, fixedDefinitions.value);
      assert types[..i + 1] == FixedTypes(original, i).value + [types[i]];
      assert types[i + 1..] == original[i + 1..] by {
        assert types[i + 1..] == rest[1..];
      }
    }
    assert types[..types.Length] == types[..];
    return Ok(());
  }

  /** The fields of type `i` fixed while the types before it already are. */
  method FixupAt(types: seq<MessageDefinition>, i: nat, ghost original: seq<MessageDefinition>)
    returns (r: Result<seq<Field>>)
    requires i < |types| == |original|
    requires FixedTypes(original, i).Ok? && types[..i] == FixedTypes(original, i).value
    requires types[i..] == original[i..]
    ensures var t := original[i];
      (r.Ok? <==> FixedFields(original, Namespace(t.name), t.definitions).Ok?)
      && (r.Ok? ==> r.value == FixedFields(original, Namespace(t.name), t.definitions).value)
  {
    var t := types[i];
    assert t == original[i] by { assert types[i..][0] == original[i..][0]; }
    assert types[i + 1..] == original[i + 1..] by { assert types[i + 1..] == types[i..][1..]; }
    var typeNamespace := Namespace(t.name);
    SameNames(types, original, i);
    r := FixupFields(types, typeNamespace, t.definitions);
    FixedFieldsByName(types, original, typeNamespace, t.definitions);
  }

  /** The inner `definitions.forEach` of `fixupTypes`, against the current list of types. */
  method FixupFields(types: seq<MessageDefinition>, typeNamespace: Option<string>, definitions: seq<Field>)
    returns (r: Result<seq<Field>>)
    ensures r.Ok? <==> FixedFields(types, typeNamespace, definitions).Ok?
    ensures r.Ok? ==> r.value == FixedFields(types, typeNamespace, definitions).value
  {
    var fixed: seq<Field> := [];
    for j := 0 to |definitions|
      invariant FixedFields(types, typeNamespace, definitions[..j]) == Ok(fixed)
    {
      var definition := definitions[j];
      FixedFieldsLast(types, typeNamespace, definitions, j, fixed);
      if definition.isComplex {
        var found := FindTypeByName(types, definition.typ, typeNamespace);
        if found.Err? {
          FixedFieldsErrorPersists(types, typeNamespace, definitions, j + 1);
          return Err(found.error);
        }
        var foundName := found.value.name;
        if foundName.None? {
          FixedFieldsErrorPersists(types, typeNamespace, definitions, j + 1);
          return Err("Missing type definition for " + definition.typ);
        }
        fixed := fixed + [definition.(typ := foundName.value)];
      } else {
        fixed := fixed + [definition];
      }
    }
    assert definitions[..|definitions|] == definitions;
    return Ok(fixed);
  }

  /** The fields up to `j` fixed, from those before `j` and field `j`. */
  lemma FixedFieldsLast(types: seq<MessageDefinition>, ns: Option<string>, fs: seq<Field>, j: nat, prev: seq<Field>)
    requires j < |fs| && FixedFields(types, ns, fs[..j]) == Ok(prev)
    ensures FixedField(types, ns, fs[j]).Ok? ==> FixedFields(types, ns, fs[..j + 1]) == Ok(prev + [FixedField(types, ns, fs[j]).value])
  {
    assert fs[..j + 1][..j] == fs[..j];
  }

  /** Resolution depends only on the names of the types searched. */
  lemma FixedFieldByName(a: seq<MessageDefinition>, b: seq<MessageDefinition>, ns: Option<string>, f: Field)
    requires |a| == |b| && forall i :: 0 <= i < |a| ==> a[i].name == b[i].name
    ensures FixedField(a, ns, f).Ok? <==> FixedField(b, ns, f).Ok?
    ensures FixedField(a, ns, f).Ok? ==> FixedField(a, ns, f).value == FixedField(b, ns, f).value
  {
    if f.isComplex {
      CandidatesByName(a, b, f.typ, ns);
      var ca, cb := Candidates(a, f.typ, ns), Candidates(b, f.typ, ns);
      if |ca| == 1 {
        assert FindTypeByName(a, f.typ, ns).value == ca[0] by { assert ca[0] in ca; }
        assert FindTypeByName(b, f.typ, ns).value == cb[0] by { assert cb[0] in cb; }
      }
    }
  }

  lemma {:induction false} FixedFieldsByName(a: seq<MessageDefinition>, b: seq<MessageDefinition>, ns: Option<string>, fs: seq<Field>)
    requires |a| == |b| && forall i :: 0 <= i < |a| ==> a[i].name == b[i].name
    ensures FixedFields(a, ns, fs).Ok? <==> FixedFields(b, ns, fs).Ok?
    ensures FixedFields(a, ns, fs).Ok? ==> FixedFields(a, ns, fs).value == FixedFields(b, ns, fs).value
  {
    if fs != [] {
      FixedFieldsByName(a, b, ns, fs[..|fs| - 1]);
      FixedFieldByName(a, b, ns, fs[|fs| - 1]);
    }
  }

  lemma SameNames(current: seq<MessageDefinition>, original: seq<MessageDefinition>, i: nat)
    requires i < |current| == |original|
    requires FixedTypes(original, i).Ok? && current[..i] == FixedTypes(original, i).value
    requires current[i].name == original[i].name && current[i + 1..] == original[i + 1..]
    ensures forall k :: 0 <= k < |current| ==> current[k].name == original[k].name
  {
    forall k | 0 <= k < |current|
      ensures current[k].name == original[k].name
    {
      if k < i {
        assert current[k] == current[..i][k];
      } else if k > i {
        assert current[k] == current[i + 1..][k - i - 1];
      }
    }
  }

  lemma {:induction false} FixedFieldsErrorPersists(types: seq<MessageDefinition>, ns: Option<string>, fs: seq<Field>, k: nat)
    requires 0 < k <= |fs|
    requires FixedFields(types, ns, fs[..k - 1]).Ok? && FixedField(types, ns, fs[k - 1]).Err?
    ensures FixedFields(types, ns, fs).Err?
    decreases |fs| - k
  {
    assert fs[..k][..k - 1] == fs[..k - 1];
    if k < |fs| {
      var front := fs[..|fs| - 1];
      assert front[..k - 1] == fs[..k - 1] && front[k - 1] == fs[k - 1];
      FixedFieldsErrorPersists(types, ns, front, k);
    } else {
      assert fs[..k - 1] == fs[..|fs| - 1];
    }
  }

  /** Once the first `k` types fail to fix, so does every longer prefix:
      `fixupTypes` stops at its first error. */
  lemma FixedTypesErrorPersists(types: seq<MessageDefinition>, k: nat, upTo: nat)
    requires k <= upTo <= |types|
    requires FixedTypes(types, k).Err?
    ensures FixedTypes(types, upTo).Err?
  {
    var n := k;
    while n < upTo
      invariant k <= n <= upTo
      invariant FixedTypes(types, n).Err?
    {
      FixedTypesErrorStep(types, n + 1);
      n := n + 1;
    }
  }

  /** An error in the types before `upTo` is the error of the first `upTo`. */
  lemma FixedTypesErrorStep(types: seq<MessageDefinition>, upTo: nat)
    requires 0 < upTo <= |types|
    requires FixedTypes(types, upTo - 1).Err?
    ensures FixedTypes(types, upTo) == Err(FixedTypes(types, upTo - 1).error)
  {
  }

  /** An error in the fields of type `upTo - 1` is the error of the first `upTo`. */
  lemma FixedTypesFieldError(types: seq<MessageDefinition>, upTo: nat)
    requires 0 < upTo <= |types|
    requires FixedTypes(types, upTo - 1).Ok?
    requires FixedFields(types, Namespace(types[upTo - 1].name), types[upTo - 1].definitions).Err?
    ensures FixedTypes(types, upTo).Err?
  {
  }

  // ----- the whole parse -----

  /** `parse`: every step in order; the function the `parse` method is proved against. */
  function ParseResult(d: Dialect, eq: (MessageDefinition, MessageDefinition) -> bool, skipTypeFixup: bool,
    text: string): Result<seq<MessageDefinition>>
  {
    var types :- BuildAll(d, Groups(Lines(text)));
    var unique := FirstOccurrences(types, eq);
    if skipTypeFixup then Ok(unique) else FixedTypes(unique, |unique|)
  }

  /** Before duplicates are removed there is one type per group, so one more
      than the number of separator lines. */
  lemma TypesPerSeparator(d: Dialect, text: string)
    requires BuildAll(d, Groups(Lines(text))).Ok?
    ensures |BuildAll(d, Groups(Lines(text))).value| == Separators(Lines(text)) + 1
  {
    GroupCount(Lines(text));
  }

  /** With `skipTypeFixup`, every type is exactly as built from its group. */
  lemma SkipFixupKeepsTypes(d: Dialect, eq: (MessageDefinition, MessageDefinition) -> bool, text: string)
    requires BuildAll(d, Groups(Lines(text))).Ok?
    ensures ParseResult(d, eq, true, text) == Ok(FirstOccurrences(BuildAll(d, Groups(Lines(text))).value, eq))
  {
  }

  /** The types stop at the first group that fails to build. */
  lemma BuildAllErrorPersists(d: Dialect, groups: seq<seq<string>>, k: nat)
    requires k <= |groups| && BuildAll(d, groups[..k]).Err?
    ensures BuildAll(d, groups).Err?
  {
    var n := k;
    while n < |groups|
      invariant k <= n <= |groups| && BuildAll(d, groups[..n]).Err?
    {
      assert groups[..n + 1][..n] == groups[..n];
      BuildAllErrorStep(groups[..n + 1], d);
      n := n + 1;
    }
    assert groups[..n] == groups;
  }

  lemma BuildAllErrorStep(groups: seq<seq<string>>, d: Dialect)
    requires groups != [] && BuildAll(d, groups[..|groups| - 1]).Err?
    ensures BuildAll(d, groups).Err?
  {
  }

  /** `ParseResult` taken apart into its steps. */
  lemma ParseResultSteps(d: Dialect, eq: (MessageDefinition, MessageDefinition) -> bool, skipTypeFixup: bool, text: string)
    ensures var built := BuildAll(d, Groups(Lines(text)));
      && (built.Err? ==> ParseResult(d, eq, skipTypeFixup, text).Err?)
      && (built.Ok? ==> var unique := FirstOccurrences(built.value, eq);
            ParseResult(d, eq, skipTypeFixup, text) == if skipTypeFixup then Ok(unique) else FixedTypes(unique, |unique|))
  {
  }

  /** `parse(messageDefinition, options)`. */
  method Parse(d: Dialect, eq: (MessageDefinition, MessageDefinition) -> bool, skipTypeFixup: bool, messageDefinition: string)
    returns (r: Result<seq<MessageDefinition>>)
    ensures r.Ok? <==> ParseResult(d, eq, skipTypeFixup, messageDefinition).Ok?
    ensures r.Ok? ==> r.value == ParseResult(d, eq, skipTypeFixup, messageDefinition).value
  {
    var allLines := Lines(messageDefinition);
    var types := BuildTypes(d, allLines);
    if types.Err? {
      ParseResultSteps(d, eq, skipTypeFixup, messageDefinition);
      return Err(types.error);
    }
    var uniqueTypes := UniqueTypes(types.value, eq);
    ParseResultSteps(d, eq, skipTypeFixup, messageDefinition);
    if skipTypeFixup {
      return Ok(uniqueTypes);
    }
    var arr := ToArray(uniqueTypes);
    var fixedUp := FixupTypes(arr);
    if fixedUp.Err? {
      return Err(fixedUp.error);
    }
    return Ok(arr[..]);
  }

  /** A fresh array holding the given types, for the in-place fixup. */
  method ToArray(types: seq<MessageDefinition>) returns (arr: array<MessageDefinition>)
    ensures fresh(arr) && arr[..] == types
  {
    arr := new MessageDefinition[|types|](k requires 0 <= k < |types| => types[k]);
    assert arr[..] == types;
  }

  /** The open group's type completes the types built from the groups before it. */
  lemma LastGroupBuilt(d: Dialect, g: seq<seq<string>>, types: seq<MessageDefinition>)
    requires |g| >= 1 && BuildAll(d, g[..|g| - 1]) == Ok(types)
    ensures TypeOfGroup(d, g[|g| - 1]).Err? ==> BuildAll(d, g).Err?
    ensures TypeOfGroup(d, g[|g| - 1]).Ok? ==> BuildAll(d, g) == Ok(types + [TypeOfGroup(d, g[|g| - 1]).value])
  {
  }

  /** A separator line closes the open group and opens an empty one. */
  lemma SeparatorAdded(g: seq<seq<string>>, line: string)
    requires |g| >= 1 && IsSeparator(line)
    ensures var g' := AddLine(g, line); g'[..|g'| - 1] == g && g'[|g'| - 1] == []
  {
  }

  /** Any other line joins the open group. */
  lemma LineAdded(g: seq<seq<string>>, line: string)
    requires |g| >= 1 && !IsComment(line) && !IsSeparator(line)
    ensures var g' := AddLine(g, line);
      |g'| == |g| && g'[..|g'| - 1] == g[..|g| - 1] && g'[|g'| - 1] == g[|g| - 1] + [line]
  {
  }

  /** The `forEach` over the lines of `parse`: a type is built at every
      separator line and once more at the end. */
  method BuildTypes(d: Dialect, allLines: seq<string>) returns (r: Result<seq<MessageDefinition>>)
    ensures r.Ok? <==> BuildAll(d, Groups(allLines)).Ok?
    ensures r.Ok? ==> r.value == BuildAll(d, Groups(allLines)).value
  {
    var definitionLines: seq<string> := [];
    var types: seq<MessageDefinition> := [];
    ghost var groups: seq<seq<string>> := [[]];
    for i := 0 to |allLines|
      invariant groups == Groups(allLines[..i])
      invariant definitionLines == groups[|groups| - 1]
      invariant BuildAll(d, groups[..|groups| - 1]) == Ok(types)
    {
      var line := allLines[i];
      assert allLines[..i + 1][..i] == allLines[..i];
      assert Groups(allLines[..i + 1]) == AddLine(groups, line);
      if StartsWith(line, "#") {
        continue;
      }
      if StartsWith(line, "==") {
        var t := BuildGroup(d, definitionLines);
        if t.Err? {
          SeparatorError(d, allLines, i);
          return Err(t.error);
        }
        LastGroupBuilt(d, groups, types);
        SeparatorAdded(groups, line);
        types := types + [t.value];
        definitionLines := [];
      } else {
        LineAdded(groups, line);
        definitionLines := definitionLines + [line];
      }
      groups := AddLine(groups, line);
    }
    assert allLines[..|allLines|] == allLines;
    var last := BuildGroup(d, definitionLines);
    LastGroupBuilt(d, groups, types);
    if last.Err? {
      return Err(last.error);
    }
    return Ok(types + [last.value]);
  }

  /** A group closed by a separator line that fails to build fails the whole text. */
  lemma SeparatorError(d: Dialect, allLines: seq<string>, i: nat)
    requires i < |allLines| && IsSeparator(allLines[i])
    requires var g := Groups(allLines[..i]);
      BuildAll(d, g[..|g| - 1]).Ok? && TypeOfGroup(d, g[|g| - 1]).Err?
    ensures BuildAll(d, Groups(allLines)).Err?
  {
    var g := Groups(allLines[..i]);
    var all := Groups(allLines);
    LastGroupBuilt(d, g, BuildAll(d, g[..|g| - 1]).value);
    SeparatorClosesGroups(allLines, i);
    BuildAllErrorPersists(d, all, |g|);
  }

  /** After a separator line, the groups before it are final. */
  lemma SeparatorClosesGroups(allLines: seq<string>, i: nat)
    requires i < |allLines| && IsSeparator(allLines[i])
    ensures var g, all := Groups(allLines[..i]), Groups(allLines);
      |g| < |all| && all[..|g|] == g
  {
    var g := Groups(allLines[..i]);
    var g' := Groups(allLines[..i + 1]);
    assert allLines[..i + 1][..i] == allLines[..i];
    assert g' == g + [[]];
    GroupsGrow(allLines, i + 1);
    assert g'[..|g'| - 1] == g;
  }

  /** Earlier groups stay as they are when more lines follow. */
  lemma {:induction false} GroupsGrow(lines: seq<string>, k: nat)
    requires k <= |lines|
    ensures var a, b := Groups(lines[..k]), Groups(lines);
      |a| <= |b| && a[..|a| - 1] == b[..|a| - 1]
    decreases |lines| - k
  {
    if k < |lines| {
      var front := lines[..|lines| - 1];
      assert front[..k] == lines[..k];
      GroupsGrow(front, k);
      var a, b', b := Groups(lines[..k]), Groups(front), Groups(lines);
      assert b == AddLine(b', lines[|lines| - 1]);
      assert b[..|b'| - 1] == b'[..|b'| - 1];
      assert a[..|a| - 1] == b'[..|b'| - 1][..|a| - 1];
      assert b[..|a| - 1] == b[..|b'| - 1][..|a| - 1];
    } else {
      assert lines[..k] == lines;
    }
  }
}
