/** The configuration-file loop of sc_main: lines indented by four spaces per level become a tree of
    parameters. */
module Config {
  import opened Wrappers

  /** A parameter: its value and the parameters below it. */
  datatype Tree = Node(value: string, config: Scope)

  type Scope = map<string, Tree>

  /** The names that lead from the root to a parameter. */
  type Path = seq<string>

  datatype Error = LineTooLong | TabFound | NoParameter | NotMultipleOfFour | UnsupportedIndentation | NoValue

  const MAX_LINE := 4000

  predicate Break(c: char) {
    c == '\r' || c == '\n'
  }

  /** The text of a line up to its first line break. */
  function Strip(line: string): (s: string)
    ensures |s| <= |line| && s == line[..|s|]
    ensures forall i | 0 <= i < |s| :: !Break(s[i])
    ensures |s| < |line| ==> Break(line[|s|])
  {
    if line == [] || Break(line[0]) then [] else [line[0]] + Strip(line[1..])
  }

  function LeadingSpaces(s: string): (n: nat)
    ensures n <= |s| && forall i | 0 <= i < n :: s[i] == ' '
    ensures n < |s| ==> s[n] != ' '
  {
    if s != [] && s[0] == ' ' then 1 + LeadingSpaces(s[1..]) else 0
  }

  /** Length of the first word. */
  function WordLength(s: string): (n: nat)
    ensures n <= |s| && forall i | 0 <= i < n :: s[i] != ' '
    ensures n < |s| ==> s[n] == ' '
  {
    if s != [] && s[0] != ' ' then 1 + WordLength(s[1..]) else 0
  }

  /** `tolower` in the C locale */
  function LowerChar(c: char): char {
    if 'A' <= c <= 'Z' then c - 'A' + 'a' else c
  }

  function Lower(s: string): (r: string)
    ensures |r| == |s| && forall i | 0 <= i < |s| :: r[i] == LowerChar(s[i])
  {
    if s == [] then [] else [LowerChar(s[0])] + Lower(s[1..])
  }

  /** What the loop makes of one line, before it looks at its state. */
  datatype Content = Bad(error: Error) | Skip | Text(indentation: nat, text: string)

  function Classify(line: string): Content {
    if |line| > MAX_LINE then Bad(LineTooLong)
    else if '\t' in line then Bad(TabFound)
    else
      var s := Strip(line);
      var n := LeadingSpaces(s);
      if n == |s| || s[n] == '#' then Skip else Text(n, s[n..])
  }

  /** Is there a parameter, and a scope below it, at the end of a path? */
  predicate Has(root: Scope, path: Path)
    decreases path
  {
    path == [] || (path[0] in root && Has(root[path[0]].config, path[1..]))
  }

  /** Put a new parameter without descendants in the scope at `path[..|path| - 1]`. */
  function Insert(root: Scope, path: Path, value: string): Scope
    requires path != [] && Has(root, path[..|path| - 1])
    decreases path
  {
    if |path| == 1 then root[path[0] := Node(value, map[])]
    else
      assert path[..|path| - 1][0] == path[0] && path[..|path| - 1][1..] == path[1..][..|path| - 2];
      root[path[0] := root[path[0]].(config := Insert(root[path[0]].config, path[1..], value))]
  }

  /** The tree built so far and the path of the last parameter, [] before the first. */
  datatype State = State(root: Scope, trail: Path) {
    predicate Valid() {
      Has(root, trail)
    }

    function Depth(): nat {
      if trail == [] then 0 else |trail| - 1
    }
  }

  const START := State(map[], [])

  /** The level a line belongs to. */
  function Level(st: State, indentation: nat): Result<nat, Error> {
    var diff := indentation - 4 * st.Depth();
    if diff == 0 then Ok(st.Depth())
    else if diff == 4 then (if st.trail == [] then Err(NoParameter) else Ok(st.Depth() + 1))
    else if diff < 0 then (if diff % 4 != 0 then Err(NotMultipleOfFour) else Ok(indentation / 4))
    else Err(UnsupportedIndentation)
  }

  function Step(st: State, line: string): (r: Result<State, Error>)
    requires st.Valid()
    ensures r.Ok? ==> r.value.Valid()
  {
    match Classify(line)
    case Bad(error) => Err(error)
    case Skip => Ok(st)
    case Text(indentation, text) =>
      match Level(st, indentation)
      case Err(error) => Err(error)
      case Ok(d) =>
        var n := WordLength(text);
        if n == |text| then Err(NoValue)
        else Define(st, d, Lower(text[..n]), text[n + 1..])
  }

  function Define(st: State, d: nat, name: string, value: string): (r: Result<State, Error>)
    requires st.Valid() && d <= |st.trail|
    ensures r.Ok? && r.value.Valid()
  {
    var path := st.trail[..d] + [name];
    HasPrefix(st.root, st.trail, d);
    assert path[..d] == st.trail[..d];
    InsertHas(st.root, path, value);
    Ok(State(Insert(st.root, path, value), path))
  }

  lemma {:induction false} HasPrefix(root: Scope, path: Path, n: nat)
    requires Has(root, path) && n <= |path|
    ensures Has(root, path[..n])
    decreases n
  {
    if n > 0 {
      HasPrefix(root[path[0]].config, path[1..], n - 1);
      assert path[..n][1..] == path[1..][..n - 1];
    }
  }

  lemma {:induction false} InsertHas(root: Scope, path: Path, value: string)
    requires path != [] && Has(root, path[..|path| - 1])
    ensures Has(Insert(root, path, value), path)
    decreases path
  {
    if |path| > 1 {
      assert path[..|path| - 1][0] == path[0] && path[..|path| - 1][1..] == path[1..][..|path| - 2];
      InsertHas(root[path[0]].config, path[1..], value);
    }
  }

  function NodeAt(root: Scope, path: Path): Tree
    requires path != [] && Has(root, path)
    decreases path
  {
    if |path| == 1 then root[path[0]] else NodeAt(root[path[0]].config, path[1..])
  }

  /** A parameter defined again begins with its new value and without the descendants of the old one. */
  lemma {:induction false} InsertAt(root: Scope, path: Path, value: string)
    requires path != [] && Has(root, path[..|path| - 1])
    ensures Has(Insert(root, path, value), path) && NodeAt(Insert(root, path, value), path) == Node(value, map[])
    decreases path
  {
    InsertHas(root, path, value);
    if |path| > 1 {
      assert path[..|path| - 1][1..] == path[1..][..|path| - 2];
      InsertAt(root[path[0]].config, path[1..], value);
    }
  }

  /** Every parameter that is not below it is there if it was there before, with its value, and unless it is an ancestor
      with its descendants. */
  lemma {:induction false} InsertElsewhere(root: Scope, path: Path, value: string, other: Path)
    requires path != [] && Has(root, path[..|path| - 1]) && other != [] && !(path <= other)
    ensures Has(Insert(root, path, value), other) <==> Has(root, other)
    ensures Has(root, other) ==> NodeAt(Insert(root, path, value), other).value == NodeAt(root, other).value
    ensures Has(root, other) && !(other <= path) ==> NodeAt(Insert(root, path, value), other) == NodeAt(root, other)
    decreases path
  {
    if |path| > 1 && other[0] == path[0] && |other| > 1 {
      assert path[..|path| - 1][1..] == path[1..][..|path| - 2];
      assert path[1..] <= other[1..] ==> path <= other;
      assert other[1..] <= path[1..] ==> other <= path;
      InsertElsewhere(root[path[0]].config, path[1..], value, other[1..]);
    }
  }

  /** The whole loop. */
  function Run(st: State, lines: seq<string>): (r: Result<State, Error>)
    requires st.Valid()
    ensures r.Ok? ==> r.value.Valid()
    decreases lines
  {
    if lines == [] then Ok(st)
    else
      var next := Step(st, lines[0]);
      if next.Err? then next else Run(next.value, lines[1..])
  }

  lemma {:induction false} RunConcat(st: State, a: seq<string>, b: seq<string>)
    requires st.Valid()
    ensures Run(st, a + b) == if Run(st, a).Ok? then Run(Run(st, a).value, b) else Run(st, a)
    decreases a
  {
    if a == [] {
      assert a + b == b;
    } else {
      assert (a + b)[0] == a[0] && (a + b)[1..] == a[1..] + b;
      if Step(st, a[0]).Ok? {
        RunConcat(Step(st, a[0]).value, a[1..], b);
      }
    }
  }

  /** A blank or comment line anywhere changes nothing. */
  lemma SkippedLine(lines: seq<string>, i: nat, skip: string)
    requires i <= |lines| && Classify(skip) == Skip
    ensures Run(START, lines[..i] + [skip] + lines[i..]) == Run(START, lines)
  {
    var a, b := lines[..i], lines[i..];
    assert lines == a + b && lines[..i] + [skip] + lines[i..] == a + ([skip] + b);
    RunConcat(START, a, b);
    RunConcat(START, a, [skip] + b);
    assert ([skip] + b)[0] == skip && ([skip] + b)[1..] == b;
  }

  lemma OneStart(line: string, end: nat, m: nat, n: nat)
    requires m <= end <= |line| && n <= end
    requires forall i | 0 <= i < m :: line[i] == ' '
    requires forall i | 0 <= i < n :: line[i] == ' '
    requires (m == end || line[m] != ' ') && (n == end || line[n] != ' ')
    ensures m == n
  {
  }

  /** Does a line hold `n` spaces and then its end, or a comment? */
  predicate BlankFrom(line: string, end: nat, n: nat) {
    n <= end <= |line| && (forall i | 0 <= i < n :: line[i] == ' ') && (n == end || line[n] == '#')
  }

  /** What makes a line blank or a comment: no tab, and after spaces nothing or a `#`. */
  lemma SkipMeans(line: string)
    ensures Classify(line) == Skip <==>
            |line| <= MAX_LINE && '\t' !in line && exists n: nat :: BlankFrom(line, |Strip(line)|, n)
  {
    var s := Strip(line);
    var n := LeadingSpaces(s);
    forall i | 0 <= i < n ensures line[i] == ' ' {
      assert s[i] == ' ' && line[i] == s[i];
    }
    assert n < |s| ==> line[n] == s[n] != ' ';
    ClassifyMeans(line);
    hide Strip, LeadingSpaces, Classify, Break;
    if n == |s| || s[n] == '#' {
      assert BlankFrom(line, |s|, n);
    }
    if m: nat :| BlankFrom(line, |s|, m) {
      OneStart(line, |s|, m, n);
      assert n < |s| ==> s[n] == line[n] == '#';
    }
  }

  /** A configuration as it is written: named parameters in some order, each with those below it. */
  datatype Item = Item(name: string, value: string, children: seq<Item>)

  /** The tree a written configuration stands for; a repeated name replaces the earlier parameter. */
  function AddItems(scope: Scope, items: seq<Item>): Scope
    decreases items
  {
    if items == [] then scope
    else AddItems(scope[items[0].name := Node(items[0].value, AddItems(map[], items[0].children))], items[1..])
  }

  /** The same, in the scope at the end of a path. */
  function Graft(root: Scope, path: Path, items: seq<Item>): (r: Scope)
    requires Has(root, path)
    ensures Has(r, path)
    decreases path
  {
    if path == [] then AddItems(root, items)
    else root[path[0] := root[path[0]].(config := Graft(root[path[0]].config, path[1..], items))]
  }

  function Spaces(n: nat): (s: string)
    ensures |s| == n && forall i | 0 <= i < n :: s[i] == ' '
  {
    if n == 0 then [] else Spaces(n - 1) + [' ']
  }

  function PrintLine(d: nat, name: string, value: string): string {
    Spaces(4 * d) + name + " " + value + "\n"
  }

  /** Four spaces per level, then name, space and value. */
  function Print(items: seq<Item>, d: nat): seq<string>
    decreases items
  {
    if items == [] then []
    else [PrintLine(d, items[0].name, items[0].value)] + Print(items[0].children, d + 1) + Print(items[1..], d)
  }

  predicate Plain(s: string) {
    forall i | 0 <= i < |s| :: s[i] != '\t' && s[i] != '\0' && !Break(s[i])
  }

  /** A name is lower-case, without spaces, and does not start a comment. */
  predicate LegalName(s: string) {
    s != [] && Plain(s) && s[0] != '#' && forall i | 0 <= i < |s| :: s[i] != ' ' && !('A' <= s[i] <= 'Z')
  }

  predicate Legal(items: seq<Item>, d: nat)
    decreases items
  {
    items != [] ==>
      && LegalName(items[0].name) && Plain(items[0].value)
      && |PrintLine(d, items[0].name, items[0].value)| <= MAX_LINE
      && Legal(items[0].children, d + 1) && Legal(items[1..], d)
  }

  lemma {:induction false} StripText(s: string, end: string)
    requires end != [] && Break(end[0]) && forall i | 0 <= i < |s| :: !Break(s[i])
    ensures Strip(s + end) == s
  {
    if s == [] {
      assert ([] + end)[0] == end[0];
    } else {
      assert (s + end)[0] == s[0] && (s + end)[1..] == s[1..] + end;
      StripText(s[1..], end);
    }
  }

  /** The three conventions for the end of a line make no difference. */
  lemma LineEnds(s: string)
    requires |s| + 2 <= MAX_LINE && '\r' !in s && '\n' !in s
    ensures Classify(s + "\n") == Classify(s + "\r\n") == Classify(s + "\r")
  {
    hide Strip, LeadingSpaces;
    forall i | 0 <= i < |s| ensures !Break(s[i]) { assert s[i] in s; }
    StripText(s, "\n");
    StripText(s, "\r\n");
    StripText(s, "\r");
  }

  lemma SpacesCount(s: string, n: nat)
    requires n <= |s| && (forall i | 0 <= i < n :: s[i] == ' ') && (n < |s| ==> s[n] != ' ')
    ensures LeadingSpaces(s) == n
  {
    OneStart(s, |s|, n, LeadingSpaces(s));
  }

  lemma TextParts(name: string, value: string)
    requires LegalName(name)
    ensures var text := name + " " + value;
            WordLength(text) == |name| && text[..|name|] == name && text[|name| + 1..] == value && Lower(name) == name
  {
    var text := name + " " + value;
    assert forall i | 0 <= i < |name| :: text[i] == name[i];
    WordEnd(text, |name|);
  }

  lemma BodyParts(d: nat, text: string)
    requires text != [] && text[0] != ' ' && text[0] != '#' && Plain(text) && |Spaces(4 * d) + text + "\n"| <= MAX_LINE
    ensures Classify(Spaces(4 * d) + text + "\n") == Text(4 * d, text)
  {
    var body := Spaces(4 * d) + text;
    StripText(body, "\n");
    SpacesCount(body, 4 * d);
    assert body[4 * d..] == text && body[4 * d] == text[0];
    assert '\t' !in body + ['\n'];
  }

  /** A printed line is read back as its level, name and value. */
  lemma PrintedLine(d: nat, name: string, value: string)
    requires LegalName(name) && Plain(value) && |PrintLine(d, name, value)| <= MAX_LINE
    ensures Classify(PrintLine(d, name, value)) == Text(4 * d, name + " " + value)
    ensures var text := name + " " + value;
            WordLength(text) == |name| && text[..|name|] == name && text[|name| + 1..] == value && Lower(name) == name
  {
    hide Classify, WordLength, Lower, Spaces;
    TextParts(name, value);
    assert Plain(name + " " + value);
    assert PrintLine(d, name, value) == Spaces(4 * d) + (name + " " + value) + "\n";
    BodyParts(d, name + " " + value);
  }

  lemma WordEnd(s: string, n: nat)
    requires n < |s| && s[n] == ' ' && forall i | 0 <= i < n :: s[i] != ' '
    ensures WordLength(s) == n
  {
  }

  /** The state in which a line of level `d` belongs to the scope at `path`. */
  predicate Ready(st: State, path: Path) {
    st.Valid() && |path| <= |st.trail| && st.trail[..|path|] == path
  }

  /** A printed line of level `d` is accepted whenever the last line was at level `d - 1` or deeper. */
  lemma PrintedStep(st: State, path: Path, name: string, value: string)
    requires Ready(st, path) && LegalName(name) && Plain(value) && |PrintLine(|path|, name, value)| <= MAX_LINE
    ensures Has(st.root, path) && Has(st.root, (path + [name])[..|path|])
    ensures Step(st, PrintLine(|path|, name, value)) == Ok(State(Insert(st.root, path + [name], value), path + [name]))
  {
    hide Classify, WordLength, Lower, Insert, PrintLine, Plain, LegalName;
    PrintedLine(|path|, name, value);
    HasPrefix(st.root, st.trail, |path|);
    assert (path + [name])[..|path|] == path;
    assert Level(st, 4 * |path|) == Ok(|path|);
  }

  /** A tree with the scope below one of its parameters replaced. */
  function Under(root: Scope, name: string, config: Scope): (r: Scope)
    requires name in root
    ensures name in r && r[name].config == config
  {
    root[name := root[name].(config := config)]
  }

  lemma UnderTwice(root: Scope, name: string, a: Scope, b: Scope)
    requires name in root
    ensures Under(Under(root, name, a), name, b) == Under(root, name, b)
  {
  }

  lemma InsertUnder(root: Scope, path: Path, value: string)
    requires |path| > 1 && Has(root, path[..|path| - 1])
    ensures path[0] in root && path[1..][..|path[1..]| - 1] == path[..|path| - 1][1..]
    ensures Has(root[path[0]].config, path[1..][..|path[1..]| - 1])
    ensures Insert(root, path, value) == Under(root, path[0], Insert(root[path[0]].config, path[1..], value))
  {
    assert path[..|path| - 1][0] == path[0] && path[..|path| - 1][1..] == path[1..][..|path| - 2];
  }

  lemma GraftUnder(root: Scope, path: Path, items: seq<Item>)
    requires path != [] && Has(root, path)
    ensures path[0] in root && Has(root[path[0]].config, path[1..])
    ensures Graft(root, path, items) == Under(root, path[0], Graft(root[path[0]].config, path[1..], items))
  {
  }

  lemma GraftHere(root: Scope, x: Item, rest: seq<Item>)
    ensures Has(root, [x.name][..0]) && Has(Insert(root, [x.name], x.value), [x.name])
    ensures Graft(Graft(Insert(root, [x.name], x.value), [x.name], x.children), [], rest) == Graft(root, [], [x] + rest)
  {
    var scope := root[x.name := Node(x.value, AddItems(map[], x.children))];
    assert [x.name][1..] == [] && ([x] + rest)[1..] == rest;
    assert Graft(Insert(root, [x.name], x.value), [x.name], x.children) == scope;
  }

  lemma HasUnder(root: Scope, path: Path)
    requires path != []
    ensures Has(root, path) <==> path[0] in root && Has(root[path[0]].config, path[1..])
  {
  }

  lemma {:induction false} GraftFirst(root: Scope, path: Path, x: Item, rest: seq<Item>)
    requires Has(root, path) && Has(root, (path + [x.name])[..|path|])
    ensures Has(Insert(root, path + [x.name], x.value), path + [x.name])
    ensures var r := Graft(Insert(root, path + [x.name], x.value), path + [x.name], x.children);
            Has(r, path) && Graft(r, path, rest) == Graft(root, path, [x] + rest)
    decreases path
  {
    hide *;
    var q := path + [x.name];
    InsertHas(root, q, x.value);
    if path == [] {
      assert q == [x.name];
      GraftHere(root, x, rest);
      HasNothing(Graft(Insert(root, q, x.value), q, x.children));
    } else {
      var name, below, q' := path[0], path[1..], path[1..] + [x.name];
      assert q[1..] == q' && q[..|path|] == path && q'[..|below|] == below && q[0] == name;
      HasUnder(root, path);
      var config := root[name].config;
      GraftFirst(config, below, x, rest);
      InsertUnder(root, q, x.value);
      var inserted := Insert(config, q', x.value);
      var grafted := Graft(inserted, q', x.children);
      GraftUnder(Under(root, name, inserted), q, x.children);
      UnderTwice(root, name, inserted, grafted);
      HasUnder(Under(root, name, grafted), path);
      GraftUnder(Under(root, name, grafted), path, rest);
      UnderTwice(root, name, grafted, Graft(grafted, below, rest));
      GraftUnder(root, path, [x] + rest);
    }
  }

  lemma HasNothing(root: Scope)
    ensures Has(root, [])
  {
  }

  /** Reading what was printed adds the items to the scope they were printed for. */
  lemma {:induction false} ReadPrinted(st: State, path: Path, items: seq<Item>)
    requires Ready(st, path) && Legal(items, |path|)
    ensures Has(st.root, path)
    ensures var r := Run(st, Print(items, |path|));
            r.Ok? && Ready(r.value, path) && r.value.root == Graft(st.root, path, items)
    decreases items
  {
    hide *;
    ReadyMeans(st, path);
    HasPrefix(st.root, st.trail, |path|);
    if items == [] {
      NothingPrinted(st, |path|);
      GraftNothing(st.root, path);
    } else {
      var x, rest, q := items[0], items[1..], path + [items[0].name];
      FirstPrinted(items, |path|);
      var line, below, after := PrintLine(|path|, x.name, x.value), Print(x.children, |path| + 1), Print(rest, |path|);
      PrintedStep(st, path, x.name, x.value);
      var st1 := Step(st, line).value;
      NowReady(st1, q);
      ReadPrinted(st1, q, x.children);
      var st2 := Run(st1, below).value;
      ReadyAbove(st2, q, path);
      ReadPrinted(st2, path, rest);
      assert items == [x] + rest;
      GraftFirst(st.root, path, x, rest);
      RunFirst(st, line, below + after);
      RunConcat(st1, below, after);
    }
  }

  lemma ReadyMeans(st: State, path: Path)
    requires Ready(st, path)
    ensures st.Valid() && Has(st.root, st.trail) && |path| <= |st.trail| && st.trail[..|path|] == path
  {
  }

  lemma NowReady(st: State, path: Path)
    requires st.Valid() && st.trail == path
    ensures Ready(st, path)
  {
    assert path[..|path|] == path;
  }

  lemma ReadyAbove(st: State, q: Path, path: Path)
    requires Ready(st, q) && |path| <= |q| && q[..|path|] == path
    ensures Ready(st, path)
  {
    assert st.trail[..|path|] == st.trail[..|q|][..|path|];
  }

  lemma NothingPrinted(st: State, d: nat)
    requires st.Valid()
    ensures Run(st, Print([], d)) == Ok(st)
  {
  }

  lemma FirstPrinted(items: seq<Item>, d: nat)
    requires items != [] && Legal(items, d)
    ensures var x := items[0];
            && LegalName(x.name) && Plain(x.value) && |PrintLine(d, x.name, x.value)| <= MAX_LINE
            && Legal(x.children, d + 1) && Legal(items[1..], d)
            && Print(items, d) == [PrintLine(d, x.name, x.value)] + (Print(x.children, d + 1) + Print(items[1..], d))
  {
    hide PrintLine, LegalName, Plain;
  }

  lemma RunFirst(st: State, line: string, lines: seq<string>)
    requires st.Valid() && Step(st, line).Ok?
    ensures Run(st, [line] + lines) == Run(Step(st, line).value, lines)
  {
    hide Step;
    assert ([line] + lines)[1..] == lines;
  }

  lemma {:induction false} GraftNothing(root: Scope, path: Path)
    requires Has(root, path)
    ensures Graft(root, path, []) == root
    decreases path
  {
    if path != [] {
      GraftNothing(root[path[0]].config, path[1..]);
    }
  }

  /** Do the items list a tree: every parameter once, in some order? */
  predicate Lists(items: seq<Item>, scope: Scope)
    decreases items
  {
    if items == [] then scope == map[]
    else
      var x := items[0];
      && x.name in scope && scope[x.name].value == x.value && Lists(x.children, scope[x.name].config)
      && Lists(items[1..], scope - {x.name})
  }

  lemma {:induction false} ListedItems(base: Scope, items: seq<Item>, scope: Scope)
    requires Lists(items, scope)
    ensures AddItems(base, items) == base + scope
    decreases items
  {
    if items != [] {
      var x := items[0];
      ListedItems(map[], x.children, scope[x.name].config);
      assert map[] + scope[x.name].config == scope[x.name].config;
      var node := Node(x.value, scope[x.name].config);
      ListedItems(base[x.name := node], items[1..], scope - {x.name});
      assert node == scope[x.name];
      assert base[x.name := node] + (scope - {x.name}) == base + scope;
    }
  }

  /** Printing any tree, with four spaces per level and its parameters in any order, and running the loop
      over the lines rebuilds the tree. */
  lemma RoundTrip(items: seq<Item>, scope: Scope)
    requires Legal(items, 0) && Lists(items, scope)
    ensures Run(START, Print(items, 0)).Ok? && Run(START, Print(items, 0)).value.root == scope
  {
    ReadPrinted(START, [], items);
    ListedItems(map[], items, scope);
    assert map[] + scope == scope;
  }

  /** Is `s` a name written with some of its letters in upper case? */
  predicate Spelled(s: string, name: string) {
    |s| == |name| && forall i | 0 <= i < |s| :: s[i] == name[i] || ('a' <= name[i] <= 'z' && s[i] as int == name[i] as int - 32)
  }

  /** The same items, with their names spelled in some way. */
  predicate Respelled(spelled: seq<Item>, items: seq<Item>)
    decreases items
  {
    && |spelled| == |items|
    && (items != [] ==>
          && Spelled(spelled[0].name, items[0].name) && spelled[0].value == items[0].value
          && Respelled(spelled[0].children, items[0].children) && Respelled(spelled[1..], items[1..]))
  }

  lemma SpelledChars(s: string, name: string)
    requires Spelled(s, name) && LegalName(name)
    ensures Lower(s) == name && s != [] && Plain(s) && s[0] != '#' && forall i | 0 <= i < |s| :: s[i] != ' '
  {
    forall i | 0 <= i < |s| ensures LowerChar(s[i]) == name[i] && s[i] != ' ' && s[i] != '\t' && s[i] != '\0' && !Break(s[i]) {}
    assert s[0] != '#';
    hide LowerChar, Break;
    assert Lower(s) == name;
  }

  lemma SpelledText(s: string, value: string)
    requires forall i | 0 <= i < |s| :: s[i] != ' '
    ensures var text := s + " " + value; WordLength(text) == |s| && text[..|s|] == s && text[|s| + 1..] == value
  {
    var text := s + " " + value;
    assert forall i | 0 <= i < |s| :: text[i] == s[i];
    WordEnd(text, |s|);
  }

  lemma PlainText(s: string, value: string)
    requires Plain(s) && Plain(value)
    ensures Plain(s + " " + value)
  {
  }

  lemma LineParts(d: nat, s: string, value: string)
    ensures PrintLine(d, s, value) == Spaces(4 * d) + (s + " " + value) + "\n"
  {
    hide Spaces;
  }

  lemma SpelledLine(d: nat, s: string, name: string, value: string)
    requires Spelled(s, name) && LegalName(name) && Plain(value) && |PrintLine(d, name, value)| <= MAX_LINE
    ensures Classify(PrintLine(d, s, value)) == Text(4 * d, s + " " + value)
    ensures var text := s + " " + value; WordLength(text) == |s| && text[..|s|] == s && text[|s| + 1..] == value && Lower(s) == name
  {
    hide Classify, Lower, WordLength, Spaces, LegalName, Spelled, Plain, PrintLine;
    SpelledChars(s, name);
    SpelledText(s, value);
    SameLength(d, s, name, value);
    PlainText(s, value);
    LineParts(d, s, value);
    BodyParts(d, s + " " + value);
  }

  /** A line with a name and a value is judged by its level, its name in lower case, and its value. */
  lemma StepText(st: State, line: string, indentation: nat, text: string)
    requires st.Valid() && Classify(line) == Text(indentation, text)
    ensures match Level(st, indentation)
            case Err(e) => Step(st, line) == Err(e)
            case Ok(d) =>
              var n := WordLength(text);
              && d <= |st.trail|
              && Step(st, line) == if n == |text| then Err(NoValue) else Define(st, d, Lower(text[..n]), text[n + 1..])
  {
    hide Classify, Lower, WordLength, Level, Define, Has;
    if Level(st, indentation).Ok? { LevelMeans(st, indentation); }
  }

  /** The line of a parameter is read alike however its name is spelled. */
  lemma SpelledStep(st: State, d: nat, s: string, name: string, value: string)
    requires st.Valid() && Spelled(s, name) && LegalName(name) && Plain(value) && |PrintLine(d, name, value)| <= MAX_LINE
    ensures Step(st, PrintLine(d, s, value)) == Step(st, PrintLine(d, name, value))
  {
    hide *;
    PrintedLine(d, name, value);
    SpelledLine(d, s, name, value);
    StepText(st, PrintLine(d, name, value), 4 * d, name + " " + value);
    StepText(st, PrintLine(d, s, value), 4 * d, s + " " + value);
  }

  lemma SameLength(d: nat, s: string, name: string, value: string)
    requires Spelled(s, name)
    ensures |s| == |name| && |PrintLine(d, s, value)| == |PrintLine(d, name, value)|
  {
  }

  lemma PrintFirst(items: seq<Item>, d: nat)
    requires items != []
    ensures var x := items[0];
            Print(items, d) == [PrintLine(d, x.name, x.value)] + (Print(x.children, d + 1) + Print(items[1..], d))
  {
    hide PrintLine;
  }

  lemma RunOn(st: State, line: string, lines: seq<string>)
    requires st.Valid()
    ensures Run(st, [line] + lines) == if Step(st, line).Err? then Step(st, line) else Run(Step(st, line).value, lines)
  {
    hide Step;
    assert ([line] + lines)[1..] == lines;
  }

  lemma RespelledFirst(spelled: seq<Item>, items: seq<Item>)
    requires Respelled(spelled, items)
    ensures |spelled| == |items|
    ensures items != [] ==>
              && Spelled(spelled[0].name, items[0].name) && spelled[0].value == items[0].value
              && Respelled(spelled[0].children, items[0].children) && Respelled(spelled[1..], items[1..])
  {
    hide Spelled;
  }

  lemma {:induction false} RunRespelled(st: State, spelled: seq<Item>, items: seq<Item>, d: nat)
    requires st.Valid() && Legal(items, d) && Respelled(spelled, items)
    ensures Run(st, Print(spelled, d)) == Run(st, Print(items, d))
    decreases items
  {
    hide *;
    RespelledFirst(spelled, items);
    if items == [] {
      assert spelled == items;
    } else {
      var x, y := items[0], spelled[0];
      FirstPrinted(items, d);
      PrintFirst(spelled, d);
      var line, line' := PrintLine(d, x.name, x.value), PrintLine(d, y.name, y.value);
      var below, below' := Print(x.children, d + 1), Print(y.children, d + 1);
      var after, after' := Print(items[1..], d), Print(spelled[1..], d);
      SpelledStep(st, d, y.name, x.name, x.value);
      RunOn(st, line, below + after);
      RunOn(st, line', below' + after');
      if Step(st, line).Ok? {
        var st1 := Step(st, line).value;
        RunRespelled(st1, y.children, x.children, d + 1);
        RunConcat(st1, below, after);
        RunConcat(st1, below', after');
        if Run(st1, below).Ok? { RunRespelled(Run(st1, below).value, spelled[1..], items[1..], d); }
      }
    }
  }

  /** The round trip does not depend on how the names are spelled: any mixture of cases gives the lower-case tree. */
  lemma RoundTripAnyCase(spelled: seq<Item>, items: seq<Item>, scope: Scope)
    requires Respelled(spelled, items) && Legal(items, 0) && Lists(items, scope)
    ensures Run(START, Print(spelled, 0)).Ok? && Run(START, Print(spelled, 0)).value.root == scope
  {
    hide *;
    NoneNearest();
    RunRespelled(START, spelled, items, 0);
    RoundTrip(items, scope);
  }

  predicate NoCapitals(s: string) {
    forall i | 0 <= i < |s| :: !('A' <= s[i] <= 'Z')
  }

  /** Does no name of a tree, at any level, have a capital? */
  predicate AllLower(t: Tree)
    decreases t
  {
    forall k | k in t.config :: NoCapitals(k) && AllLower(t.config[k])
  }

  predicate LowerScope(scope: Scope) {
    AllLower(Node("", scope))
  }

  lemma LowerBelow(t: Tree)
    ensures AllLower(t) <==> LowerScope(t.config)
  {
    hide NoCapitals;
  }

  lemma LowerAt(scope: Scope, k: string)
    requires LowerScope(scope) && k in scope
    ensures NoCapitals(k) && LowerScope(scope[k].config)
  {
    hide NoCapitals;
    LowerBelow(scope[k]);
  }

  lemma LowerPut(scope: Scope, k: string, t: Tree)
    requires LowerScope(scope) && NoCapitals(k) && LowerScope(t.config)
    ensures LowerScope(scope[k := t])
  {
    hide NoCapitals;
    LowerBelow(t);
  }

  lemma LowerFree(s: string)
    ensures NoCapitals(Lower(s))
  {
  }

  lemma NothingCapital()
    ensures LowerScope(map[])
  {
  }

  lemma {:induction false} InsertLower(root: Scope, path: Path, value: string)
    requires path != [] && Has(root, path[..|path| - 1]) && LowerScope(root) && NoCapitals(path[|path| - 1])
    ensures LowerScope(Insert(root, path, value))
    decreases path
  {
    hide LowerScope, NoCapitals;
    if |path| == 1 {
      NothingCapital();
      LowerPut(root, path[0], Node(value, map[]));
    } else {
      InsertUnder(root, path, value);
      LowerAt(root, path[0]);
      var config := root[path[0]].config;
      InsertLower(config, path[1..], value);
      LowerPut(root, path[0], root[path[0]].(config := Insert(config, path[1..], value)));
    }
  }

  lemma StepLower(st: State, line: string)
    requires st.Valid() && LowerScope(st.root) && Step(st, line).Ok?
    ensures LowerScope(Step(st, line).value.root)
  {
    hide Classify, Lower, WordLength, LowerScope, NoCapitals, Insert, Has;
    match Classify(line) {
      case Skip =>
      case Text(indentation, text) =>
        LevelMeans(st, indentation);
        var d, name := Level(st, indentation).value, Lower(text[..WordLength(text)]);
        LowerFree(text[..WordLength(text)]);
        HasPrefix(st.root, st.trail, d);
        var path := st.trail[..d] + [name];
        assert path[..d] == st.trail[..d];
        InsertLower(st.root, path, text[WordLength(text) + 1..]);
    }
  }

  lemma {:induction false} RunLower(st: State, lines: seq<string>)
    requires st.Valid() && LowerScope(st.root) && Run(st, lines).Ok?
    ensures LowerScope(Run(st, lines).value.root)
    decreases lines
  {
    hide Step, LowerScope;
    if lines != [] {
      StepLower(st, lines[0]);
      RunLower(Step(st, lines[0]).value, lines[1..]);
    }
  }

  /** Whatever a file holds, the tree read from it has no capital in any name. */
  lemma NamesLower(lines: seq<string>)
    requires Run(START, lines).Ok?
    ensures AllLower(Node("", Run(START, lines).value.root))
  {
    NothingCapital();
    RunLower(START, lines);
  }

  /** A tree whose names, values and lines can be printed at level `d`. */
  predicate Printable(t: Tree, d: nat)
    decreases t
  {
    forall k | k in t.config ::
      && LegalName(k) && Plain(t.config[k].value) && |PrintLine(d, k, t.config[k].value)| <= MAX_LINE
      && Printable(t.config[k], d + 1)
  }

  /** The parameters of a tree with the names in a set. */
  function Part(t: Tree, keys: set<string>): Scope
    requires keys <= t.config.Keys
  {
    map k | k in keys :: t.config[k]
  }

  /** Any part of a tree can be written as items, in some order; they are legal as the tree is. */
  lemma {:induction false} Listing(t: Tree, keys: set<string>, d: nat) returns (items: seq<Item>)
    requires keys <= t.config.Keys && Printable(t, d)
    ensures Legal(items, d) && Lists(items, Part(t, keys))
    decreases t, keys
  {
    if keys == {} {
      items := [];
    } else {
      hide Legal, Lists, PrintLine, LegalName, Plain, Part;
      var k :| k in keys;
      var children := Listing(t.config[k], t.config[k].config.Keys, d + 1);
      WholePart(t.config[k]);
      var rest := Listing(t, keys - {k}, d);
      items := [Item(k, t.config[k].value, children)] + rest;
      ListedFirst(t, keys, d, k, children, rest);
    }
  }

  lemma WholePart(t: Tree)
    ensures Part(t, t.config.Keys) == t.config
  {
  }

  lemma ListedFirst(t: Tree, keys: set<string>, d: nat, k: string, children: seq<Item>, rest: seq<Item>)
    requires k in keys && keys <= t.config.Keys && Printable(t, d)
    requires Legal(children, d + 1) && Lists(children, t.config[k].config)
    requires Legal(rest, d) && Lists(rest, Part(t, keys - {k}))
    ensures var items := [Item(k, t.config[k].value, children)] + rest; Legal(items, d) && Lists(items, Part(t, keys))
  {
    hide PrintLine, LegalName, Plain;
    var items := [Item(k, t.config[k].value, children)] + rest;
    assert items[1..] == rest;
    assert Part(t, keys) - {k} == Part(t, keys - {k});
  }

  /** So every printable tree has a printed form that the loop reads back. */
  lemma EveryTree(root: Scope) returns (items: seq<Item>)
    requires Printable(Node("", root), 0)
    ensures Lists(items, root)
    ensures Run(START, Print(items, 0)).Ok? && Run(START, Print(items, 0)).value.root == root
  {
    items := Listing(Node("", root), root.Keys, 0);
    WholePart(Node("", root));
    RoundTrip(items, root);
  }

  /** Line `j` defines `name` at level `i`, and every later line is deeper. */
  ghost predicate Nearest(lines: seq<string>, j: nat, i: nat, name: string) {
    && j < |lines|
    && Defines(lines[j], i, name)
    && forall k | j < k < |lines| :: Deeper(lines[k], i)
  }

  predicate Defines(line: string, i: nat, name: string) {
    var c := Classify(line);
    c.Text? && c.indentation == 4 * i && name == Lower(c.text[..WordLength(c.text)])
  }

  predicate Deeper(line: string, i: nat) {
    Classify(line).Text? ==> Classify(line).indentation > 4 * i
  }

  lemma RunLast(st: State, rest: seq<string>, line: string)
    requires st.Valid()
    ensures Run(st, rest + [line]) == if Run(st, rest).Ok? then Step(Run(st, rest).value, line) else Run(st, rest)
  {
    RunConcat(st, rest, [line]);
    if Run(st, rest).Ok? {
      var st' := Run(st, rest).value;
      assert [line][1..] == [];
      assert Step(st', line).Ok? ==> Run(Step(st', line).value, []) == Ok(Step(st', line).value);
    }
  }

  /** Each name of a trail comes from the nearest line of its level. */
  ghost predicate AllNearest(lines: seq<string>, trail: Path) {
    forall i: nat | i < |trail| :: HasNearest(lines, i, trail[i])
  }

  ghost predicate HasNearest(lines: seq<string>, i: nat, name: string) {
    exists j :: Nearest(lines, j, i, name)
  }

  lemma NearestStep(rest: seq<string>, line: string, st: State, st': State)
    requires st.Valid() && AllNearest(rest, st.trail) && Step(st, line) == Ok(st')
    ensures AllNearest(rest + [line], st'.trail)
  {
    hide Step, Classify, Lower, WordLength, Has;
    var lines := rest + [line];
    forall i: nat | i < |st'.trail| ensures HasNearest(lines, i, st'.trail[i]) {
      TrailStep(st, line, st', i);
      if Defines(line, i, st'.trail[i]) {
        assert Nearest(lines, |rest|, i, st'.trail[i]);
      } else {
        assert HasNearest(rest, i, st.trail[i]);
        var j :| Nearest(rest, j, i, st.trail[i]);
        NearestOn(rest, line, j, i, st.trail[i]);
      }
    }
  }

  lemma NoneNearest()
    ensures START.Valid() && Run(START, []) == Ok(START) && AllNearest([], START.trail)
  {
  }

  /** The scope of a parameter is, level by level, that of the nearest earlier line of the level. */
  lemma {:induction false} TrailNearest(lines: seq<string>)
    requires Run(START, lines).Ok?
    ensures AllNearest(lines, Run(START, lines).value.trail)
  {
    hide *;
    NoneNearest();
    if lines != [] {
      var n := |lines| - 1;
      var rest, line := lines[..n], lines[n];
      assert lines == rest + [line];
      RunLast(START, rest, line);
      TrailNearest(rest);
      NearestStep(rest, line, Run(START, rest).value, Run(START, lines).value);
    }
  }

  lemma NearestOn(rest: seq<string>, line: string, j: nat, i: nat, name: string)
    requires Nearest(rest, j, i, name) && Deeper(line, i)
    ensures Nearest(rest + [line], j, i, name)
  {
    hide Deeper, Defines;
    forall k | j < k < |rest| + 1 ensures Deeper((rest + [line])[k], i) {
      assert k < |rest| ==> Deeper(rest[k], i);
    }
  }

  lemma LevelMeans(st: State, indentation: nat)
    requires Level(st, indentation).Ok?
    ensures indentation == 4 * Level(st, indentation).value && Level(st, indentation).value <= |st.trail|
  {
  }

  /** One line keeps the trail above its level and ends it with its own name. */
  lemma TrailStep(st: State, line: string, st': State, i: nat)
    requires st.Valid() && Step(st, line) == Ok(st') && i < |st'.trail|
    ensures Defines(line, i, st'.trail[i]) || (i < |st.trail| && st.trail[i] == st'.trail[i] && Deeper(line, i))
  {
    hide Classify, WordLength, Lower, Insert, Has;
    match Classify(line) {
      case Skip =>
      case Text(indentation, text) =>
        LevelMeans(st, indentation);
        hide Level;
        var d := Level(st, indentation).value;
        assert st'.trail == st.trail[..d] + [Lower(text[..WordLength(text)])];
    }
  }

  /** What is wrong with a line, if anything: its level may be at most one below the last parameter. */
  function Complaint(st: State, line: string): Option<Error> {
    match Classify(line)
    case Bad(error) => Some(error)
    case Skip => None
    case Text(indentation, text) =>
      if indentation % 4 == 0 && indentation / 4 <= |st.trail| then (if ' ' in text then None else Some(NoValue))
      else if indentation + 4 < 4 * |st.trail| then Some(NotMultipleOfFour)
      else if indentation == 4 then Some(NoParameter)
      else Some(UnsupportedIndentation)
  }

  lemma Complains(st: State, line: string)
    requires st.Valid()
    ensures Step(st, line).Ok? <==> Complaint(st, line).None?
    ensures Complaint(st, line).Some? ==> Step(st, line) == Err(Complaint(st, line).value)
  {
    hide Classify, Lower, Insert, Has, WordLength, Level;
    if Classify(line).Text? {
      LevelComplains(st, Classify(line).indentation);
      ValueComplains(Classify(line).text);
    }
  }

  lemma LevelComplains(st: State, indentation: nat)
    ensures Level(st, indentation).Ok? <==> indentation % 4 == 0 && indentation / 4 <= |st.trail|
    ensures Level(st, indentation).Err? ==>
              Level(st, indentation) == Err(if indentation + 4 < 4 * |st.trail| then NotMultipleOfFour
                                            else if indentation == 4 then NoParameter else UnsupportedIndentation)
  {
  }

  lemma ValueComplains(text: string)
    ensures WordLength(text) == |text| <==> ' ' !in text
  {
    var n := WordLength(text);
    assert n < |text| ==> text[n] in text;
  }

  /** A line that is not rejected at once must have a line break: the source looks for one without regard to
      the end of the line. */
  predicate Readable(line: string) {
    |line| > MAX_LINE || '\t' in line || exists i :: 0 <= i < |line| && Break(line[i])
  }

  lemma ClassifyMeans(line: string)
    ensures var s := Strip(line);
            var n := LeadingSpaces(s);
            Classify(line) == if |line| > MAX_LINE then Bad(LineTooLong) else if '\t' in line then Bad(TabFound)
                              else if n == |s| || s[n] == '#' then Skip else Text(n, s[n..])
  {
  }

  /** The stack of the scopes above a scope. */
  predicate Stacked(stack: seq<Path>, scope: Path) {
    |stack| == |scope| && forall i | 0 <= i < |stack| :: stack[i] == scope[..i]
  }

  lemma StackPush(stack: seq<Path>, scope: Path, below: Path)
    requires Stacked(stack, scope) && |below| == |scope| + 1 && below[..|scope|] == scope
    ensures Stacked(stack + [scope], below)
  {
    forall i | 0 <= i < |stack| ensures stack[i] == below[..i] {
      assert below[..i] == below[..|scope|][..i];
    }
  }

  lemma StackPop(stack: seq<Path>, scope: Path)
    requires Stacked(stack, scope) && stack != []
    ensures var n := |stack| - 1; stack[n] == scope[..n] && Stacked(stack[..n], stack[n])
  {
    var n := |stack| - 1;
    forall i | 0 <= i < n ensures stack[..n][i] == stack[n][..i] {
      assert stack[n][..i] == scope[..n][..i] == scope[..i];
    }
  }

  /** The state of the loop: the tree, and the scopes, given as paths, that the source keeps pointers to. */
  class Parser {
    var root: Scope
    var stack: seq<Path>
    var scope: Path
    var parameter: Option<Path>
    var indentation: nat

    /** The stack holds the scopes above the current one, one for each level of indentation. */
    ghost predicate Valid()
      reads this
    {
      && indentation == 4 * |stack| && |stack| == |scope| && Stacked(stack, scope)
      && (parameter.None? ==> scope == [])
      && (parameter.Some? ==> |parameter.value| == |scope| + 1 && parameter.value[..|scope|] == scope)
      && Progress().Valid()
    }

    ghost function Progress(): State
      reads this
    {
      State(root, if parameter.None? then [] else parameter.value)
    }

    constructor ()
      ensures Valid() && Progress() == START
    {
      root, stack, scope, parameter, indentation := map[], [], [], None, 0;
    }

    /** One round of the loop. */
    method ProcessLine(line: string) returns (error: Option<Error>)
      requires Valid() && Readable(line)
      modifies this
      ensures match Step(old(Progress()), line)
              case Ok(st) => error == None && Valid() && Progress() == st
              case Err(e) => error == Some(e)
    {
      hide Has, Insert, Lower, WordLength, Level, Define, Strip, LeadingSpaces, Classify, Stacked;
      ClassifyMeans(line);
      if |line| > MAX_LINE {
        return Some(LineTooLong);
      }
      var tab := FindTab(line);
      if tab {
        return Some(TabFound);
      }
      var buf, start := CutLine(line);
      if start == |buf| || buf[start] == '#' {
        return None;
      }
      error := ProcessText(start, buf[start..]);
    }

    /** The rest of the round, for a line with text. */
    method ProcessText(start: nat, text: string) returns (error: Option<Error>)
      requires Valid()
      modifies this
      ensures match Level(old(Progress()), start)
              case Err(e) => error == Some(e)
              case Ok(d) =>
                var n := WordLength(text);
                if n == |text| then error == Some(NoValue)
                else
                  && d <= |old(Progress()).trail|
                  && error == None && Valid()
                  && Ok(Progress()) == Define(old(Progress()), d, Lower(text[..n]), text[n + 1..])
    {
      hide Has, Insert, Lower, WordLength, Stacked;
      ghost var st := Progress();
      error := Indent(start);
      if error.None? {
        HasPrefix(root, st.trail, |scope|);
        error := DefineParameter(text);
      }
    }

    static method FindTab(line: string) returns (found: bool)
      ensures found == ('\t' in line)
    {
      for i := 0 to |line|
        invariant '\t' !in line[..i]
      {
        if line[i] == '\t' {
          return true;
        }
      }
      return false;
    }

    /** Cut the line at its first line break and count the leading spaces. */
    static method CutLine(line: string) returns (buf: string, start: nat)
      requires exists i :: 0 <= i < |line| && Break(line[i])
      ensures buf == Strip(line) && start == LeadingSpaces(buf)
    {
      var n := 0;
      while !Break(line[n])
        invariant 0 <= n < |line| && forall i | 0 <= i < n :: !Break(line[i])
        decreases |line| - n
      {
        n := n + 1;
      }
      buf := line[..n];
      StripCut(line, n);
      hide Strip, LeadingSpaces, Break;
      start := 0;
      while start < |buf| && buf[start] == ' '
        invariant start <= |buf| && forall i | 0 <= i < start :: buf[i] == ' '
      {
        start := start + 1;
      }
      SpacesCount(buf, start);
    }

    lemma ScopeAt()
      requires Valid()
      ensures indentation == 4 * |stack| && |stack| == |scope| && Stacked(stack, scope)
      ensures parameter.Some? ==> |parameter.value| == |scope| + 1 && parameter.value[..|scope|] == scope
      ensures var st := Progress();
              && st.Valid() && st.Depth() == |scope| && |scope| <= |st.trail| && st.trail[..|scope|] == scope
              && (parameter.None? <==> st.trail == [])
    {
      hide Stacked, Has;
    }

    /** Make `scope` the scope of a line with the given indentation. */
    method Indent(start: nat) returns (error: Option<Error>)
      requires Valid()
      modifies this`indentation, this`stack, this`scope
      ensures match Level(old(Progress()), start)
              case Ok(d) => error == None && indentation == 4 * d && |stack| == |scope| == d
                            && d <= |old(Progress()).trail| && scope == old(Progress()).trail[..d] && Stacked(stack, scope)
              case Err(e) => error == Some(e)
    {
      hide Stacked, Has, State.Valid, Valid;
      ghost var st := Progress();
      ScopeAt();
      var diff := start - indentation;
      indentation := start;
      if diff == 0 {
      } else if diff == 4 {
        if parameter.None? {
          return Some(NoParameter);
        }
        StackPush(stack, scope, parameter.value);
        stack := stack + [scope];
        scope := parameter.value;
        assert st.trail[..|st.trail|] == st.trail;
      } else if diff < 0 {
        if diff % 4 != 0 {
          return Some(NotMultipleOfFour);
        }
        PopLevels(diff);
        assert start / 4 == |stack|;
        assert st.trail[..old(|scope|)][..|stack|] == st.trail[..|stack|];
      } else {
        return Some(UnsupportedIndentation);
      }
      return None;
    }

    /** The pop loop. */
    method PopLevels(diff0: int)
      requires diff0 <= 0 && diff0 % 4 == 0 && 4 * |stack| + diff0 >= 0 && |stack| == |scope| && Stacked(stack, scope)
      modifies this`stack, this`scope
      ensures 4 * |stack| == 4 * old(|stack|) + diff0 && |stack| == |scope| && Stacked(stack, scope)
      ensures |scope| <= |old(scope)| && scope == old(scope)[..|scope|]
    {
      hide *;
      var diff := diff0;
      ghost var full := scope;
      assert full[..|full|] == full;
      while diff != 0
        invariant diff <= 0 && diff % 4 == 0 && 4 * |stack| + diff == 4 * |full| + diff0
        invariant |stack| == |scope| <= |full| && scope == full[..|scope|] && Stacked(stack, scope)
        decreases -diff
      {
        StackPop(stack, scope);
        assert scope[..|stack| - 1] == full[..|stack| - 1];
        scope := stack[|stack| - 1];
        stack := stack[..|stack| - 1];
        diff := diff + 4;
      }
    }

    /** Split the text at its first space and lower-case the name. */
    static method SplitName(text: string) returns (n: nat, name: string)
      ensures n == WordLength(text) && name == Lower(text[..n])
    {
      n, name := 0, "";
      while n < |text| && text[n] != ' '
        invariant n <= |text| && (forall i | 0 <= i < n :: text[i] != ' ') && name == Lower(text[..n])
      {
        LowerMore(text[..n], text[n]);
        assert text[..n + 1] == text[..n] + [text[n]];
        name := name + [LowerChar(text[n])];
        n := n + 1;
      }
      if n == |text| {
        WordAll(text);
      } else {
        WordEnd(text, n);
      }
    }

    /** Enter the parameter in the current scope. */
    method DefineParameter(text: string) returns (error: Option<Error>)
      requires Has(root, scope) && indentation == 4 * |scope| && |stack| == |scope| && Stacked(stack, scope)
      modifies this`root, this`parameter
      ensures var n := WordLength(text);
              if n == |text| then error == Some(NoValue)
              else
                var path := scope + [Lower(text[..n])];
                error == None && Valid() && path[..|path| - 1] == scope
                && Progress() == State(Insert(old(root), path, text[n + 1..]), path)
    {
      hide Has, Insert, Lower, WordLength, Stacked;
      var n, name := SplitName(text);
      if n == |text| {
        return Some(NoValue);
      }
      var path := scope + [name];
      assert path[..|path| - 1] == scope;
      InsertHas(root, path, text[n + 1..]);
      root := Insert(root, path, text[n + 1..]);
      parameter := Some(path);
      return None;
    }
  }

  lemma {:induction false} StripCut(line: string, n: nat)
    requires n < |line| && Break(line[n]) && forall i | 0 <= i < n :: !Break(line[i])
    ensures Strip(line) == line[..n]
  {
    if n > 0 {
      StripCut(line[1..], n - 1);
      assert line[..n] == [line[0]] + line[1..][..n - 1];
    }
  }

  lemma LowerMore(s: string, c: char)
    ensures Lower(s + [c]) == Lower(s) + [LowerChar(c)]
  {
  }

  lemma WordAll(s: string)
    requires forall i | 0 <= i < |s| :: s[i] != ' '
    ensures WordLength(s) == |s|
  {
  }

  /** The loop over the lines of a file. */
  method ParseLines(lines: seq<string>) returns (parser: Parser, error: Option<Error>)
    requires forall k | 0 <= k < |lines| :: Readable(lines[k])
    ensures match Run(START, lines)
            case Ok(st) => error == None && parser.Valid() && parser.Progress() == st
            case Err(e) => error == Some(e)
    ensures error == None ==> AllLower(Node("", parser.root))
  {
    hide Step, AllLower;
    parser := new Parser();
    error := None;
    for k := 0 to |lines|
      invariant fresh(parser) && error == None && parser.Valid() && Run(START, lines[..k]) == Ok(parser.Progress())
    {
      assert lines[..k + 1] == lines[..k] + [lines[k]];
      RunLast(START, lines[..k], lines[k]);
      assert lines == lines[..k + 1] + lines[k + 1..];
      RunConcat(START, lines[..k + 1], lines[k + 1..]);
      error := parser.ProcessLine(lines[k]);
      if error.Some? {
        return;
      }
    }
    assert lines[..|lines|] == lines;
    NamesLower(lines);
  }
}
