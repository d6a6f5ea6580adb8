/** The line parser of OTML: a reader over the lines of the input that keeps
    the current depth, the current line number, the node new entries attach
    to and the node last created, and builds the document's node tree. */
module OtmlParser {
  import opened Text
  import opened OtmlTree
  import opened OtmlSyntax
  import OtmlAlias
  import OtmlResolver

  /** The input stream as the lines `std::getline` returns: the text cut at
      every newline, so there is always at least one (possibly empty) line
      and a final newline leaves an empty last line. */
  function Lines(text: string): (r: seq<string>)
    ensures |r| >= 1 && forall l :: l in r ==> '\n' !in l
    ensures Join(r, '\n') == text
  {
    Split(text, '\n')
  }

  /** The node `parseNode` creates for entry `e` with final value `value`,
      read at line `lineNo`; `Attach` fills in its parent and children. */
  function MakeNode(docSource: string, e: Entry, value: string, lineNo: nat): (n: Node)
    ensures n.tag == e.tag && n.unique == e.unique
    ensures n.isNull <==> value == "~"
    ensures n.value == (if ParseValue(value).Scalar? then value else "")
    ensures n.items == (if ParseValue(value).List? then ParseValue(value).items else [])
    ensures n.source == docSource + ":" + NatToString(lineNo)
  {
    var v := ParseValue(value);
    Node(e.tag, if v.Scalar? then v.text else "", v.Null?, if v.List? then v.items else [],
         e.unique, docSource + ":" + NatToString(lineNo), 0, [])
  }

  /** The final value of an entry read with the stream at `at` and the line
      counter at `lineNo`, together with where the stream and the counter
      stand afterwards: the value itself, or for a block indicator the
      chomped text of the block scalar that follows. */
  datatype Scan = Scan(value: string, next: nat, lineNo: nat)

  function ScanValue(lines: seq<string>, at: nat, lineNo: nat, depth: nat, e: Entry): (r: Result<Scan>)
    requires at <= |lines|
    ensures !IsBlockIndicator(e.value) ==> r == Ok(Scan(e.value, at, lineNo))
    ensures r.Ok? ==> at <= r.value.next <= |lines| && lineNo <= r.value.lineNo
  {
    if !IsBlockIndicator(e.value) then Ok(Scan(e.value, at, lineNo))
    else
      var b := BlockExtent(lines, at, lineNo, depth);
      if b.Err? then Err(b.error)
      else
        var c := Chomped(BlockData(lines, at, b.value.next, depth), e.value);
        if c.None? then Err(ChompUnderflow(b.value.lineNo))
        else Ok(Scan(c.value, b.value.next, b.value.lineNo))
  }

  /** A trimmed line `parseLine` skips: empty or a comment. */
  predicate Skipped(trimmed: string) {
    trimmed == [] || IsComment(trimmed)
  }

  /** The right trim at the start of `parseNode`. */
  method RightTrim(data: string) returns (line: string)
    ensures line == StripLineEnd(data)
  {
    line := data;
    while line != [] && IsLineEndSpace(line[|line| - 1])
      invariant StripLineEnd(line) == StripLineEnd(data)
      decreases |line|
    {
      line := line[..|line| - 1];
    }
  }

  /** The node creation of `parseNode`: the null marker, or the list items
      trimmed one by one, or the scalar value. */
  method BuildNode(docSource: string, e: Entry, value: string, lineNo: nat) returns (node: Node)
    ensures node == MakeNode(docSource, e, value, lineNo)
  {
    var isNull := value == "~";
    var text := "";
    var items: seq<string> := [];
    if !isNull {
      if StartsWith(value, "[") && EndsWith(value, "]") {
        items := TrimTokens(Split(ListInterior(value), ','));
      } else {
        text := value;
      }
    }
    node := Node(e.tag, text, isNull, items, e.unique, docSource + ":" + NatToString(lineNo), 0, []);
  }

  /** The loop over the pieces of a list value, trimming each in turn. */
  method TrimTokens(tokens: seq<string>) returns (items: seq<string>)
    ensures items == TrimAll(tokens)
  {
    items := [];
    var i := 0;
    while i < |tokens|
      invariant i <= |tokens| && items == TrimAll(tokens[..i])
    {
      items := items + [Trim(tokens[i])];
      i := i + 1;
    }
    assert tokens[..i] == tokens;
  }

  /** Everything the parser keeps between two lines: the node arena, the
      stream position, the current depth and line number, the node new
      entries attach to and the node last created. */
  datatype State = State(
    nodes: seq<Node>,
    cursor: nat,
    depth: nat,
    lineNo: nat,
    parent: Option<nat>,
    previous: Option<nat>)

  /** What `parseNode` needs: a tree, a position in the stream, and a
      parent, if any, that is a node of the tree. */
  ghost predicate Ready(lines: seq<string>, st: State) {
    && st.cursor <= |lines|
    && WellFormed(st.nodes)
    && (st.parent.Some? ==> st.parent.value < |st.nodes|)
  }

  /** The parser's invariant between lines: the current parent sits at the
      current depth, and the node last created is one of its children. */
  ghost predicate Settled(lines: seq<string>, st: State) {
    && Ready(lines, st)
    && st.parent.Some?
    && Level(st.nodes, st.parent.value) == st.depth
    && (st.previous.Some? ==>
          0 < st.previous.value < |st.nodes| && st.nodes[st.previous.value].parent == st.parent.value)
  }

  /** `parseNode` on the trimmed line `data`: splits it, reads the block
      scalar it may introduce, and attaches the new node to the current
      parent, which it then remembers as the node last created. */
  function NodeStep(lines: seq<string>, source: string, st: State, data: string): (r: Result<State>)
    requires Ready(lines, st)
    ensures r.Ok? ==> st.parent.Some? && Ready(lines, r.value)
    ensures r.Ok? ==> st.cursor <= r.value.cursor && st.lineNo <= r.value.lineNo && r.value.depth == st.depth
    ensures r.Ok? ==> |r.value.nodes| == |st.nodes| + 1 && r.value.parent == st.parent
    ensures r.Ok? ==> r.value.previous == Some(|st.nodes|) && r.value.nodes[|st.nodes|].parent == st.parent.value
    ensures r.Ok? ==> r.value.nodes == Attach(st.nodes, st.parent.value, r.value.nodes[|st.nodes|])
    ensures r.Ok? && Level(st.nodes, st.parent.value) == st.depth ==>
      Settled(lines, r.value) && Level(r.value.nodes, |st.nodes|) == st.depth + 1
  {
    var e := SplitLine(data);
    var s := ScanValue(lines, st.cursor, st.lineNo, st.depth, e);
    if s.Err? then Err(s.error)
    else if st.parent.None? then Err(OrphanedNode(e.tag, s.value.lineNo))
    else
      var p := st.parent.value;
      var nodes := Attach(st.nodes, p, MakeNode(source, e, s.value.value, st.lineNo));
      AttachLevel(st.nodes, p, MakeNode(source, e, s.value.value, st.lineNo), p);
      AttachLevel(st.nodes, p, MakeNode(source, e, s.value.value, st.lineNo), |st.nodes|);
      Ok(State(nodes, s.value.next, st.depth, s.value.lineNo, st.parent, Some(|st.nodes|)))
  }

  /** The parent for a node at depth `d`: the node last created one level
      down, the same parent at the same depth, or the ancestor as many
      levels up as the depth fell. */
  ghost function NewParent(st: State, d: nat): (p: Option<nat>)
    requires WellFormed(st.nodes) && st.parent.Some? && st.parent.value < |st.nodes|
    requires Level(st.nodes, st.parent.value) == st.depth && d <= st.depth + 1
  {
    if d == st.depth + 1 then st.previous
    else if d < st.depth then Some(Ancestor(st.nodes, st.parent.value, st.depth - d))
    else st.parent
  }

  /** `parseLine` on a line already read (the state counts it): checks its
      indentation, skips blank and comment lines, moves to the parent the
      new depth calls for and parses the node. */
  ghost function LineStep(lines: seq<string>, source: string, st: State, line: string): (r: Result<State>)
    requires Settled(lines, st)
    ensures r.Ok? ==> Settled(lines, r.value) && st.cursor <= r.value.cursor
  {
    var depth := LineDepth(line, false, st.depth, st.lineNo);
    if depth.Err? then Err(depth.error)
    else if Skipped(Trim(line)) then Ok(st)
    else if depth.value > st.depth + 1 then Err(InvalidDepth(st.lineNo))
    else
      var d := depth.value;
      var moved := st.(depth := d, parent := NewParent(st, d));
      NodeStep(lines, source, moved, Trim(line))
  }

  /** A line that passes the depth checks is parsed as a node at its depth,
      under the parent that depth calls for. */
  lemma LineStepParses(lines: seq<string>, source: string, st: State, line: string, d: nat)
    requires Settled(lines, st)
    requires LineDepth(line, false, st.depth, st.lineNo) == Ok(d)
    requires !Skipped(Trim(line)) && d <= st.depth + 1
    ensures LineStep(lines, source, st, line) ==
      NodeStep(lines, source, st.(depth := d, parent := NewParent(st, d)), Trim(line))
  {
  }

  /** The loop of `parse`: reads and parses lines until the end of the
      stream or the first error. */
  ghost function Run(lines: seq<string>, source: string, st: State): (r: Result<State>)
    requires Settled(lines, st)
    ensures r.Ok? ==> Settled(lines, r.value) && r.value.cursor == |lines|
    decreases |lines| - st.cursor, 2
  {
    if st.cursor == |lines| then Ok(st) else Turn(lines, source, st)
  }

  /** `getNextLine` inside the loop: the next line is read and counted. */
  ghost function Turn(lines: seq<string>, source: string, st: State): (r: Result<State>)
    requires Settled(lines, st) && st.cursor < |lines|
    ensures r.Ok? ==> Settled(lines, r.value) && r.value.cursor == |lines|
    decreases |lines| - st.cursor, 1
  {
    Continue(lines, source, st.(cursor := st.cursor + 1, lineNo := st.lineNo + 1))
  }

  /** One turn of the loop once the line before `read.cursor` was read:
      the line is parsed, and an error ends the run. */
  ghost function Continue(lines: seq<string>, source: string, read: State): (r: Result<State>)
    requires Settled(lines, read) && 0 < read.cursor
    ensures r.Ok? ==> Settled(lines, r.value) && r.value.cursor == |lines|
    decreases |lines| - read.cursor + 1, 0
  {
    var r := LineStep(lines, source, read, lines[read.cursor - 1]);
    if r.Err? then r else Run(lines, source, r.value)
  }

  lemma {:induction false} RunReads(lines: seq<string>, source: string, st: State)
    requires Settled(lines, st) && st.cursor < |lines|
    ensures Run(lines, source, st) == Continue(lines, source, st.(cursor := st.cursor + 1, lineNo := st.lineNo + 1))
  {
  }

  lemma {:induction false} ContinueParses(lines: seq<string>, source: string, read: State, r: Result<State>)
    requires Settled(lines, read) && 0 < read.cursor
    requires r == LineStep(lines, source, read, lines[read.cursor - 1])
    ensures r.Err? ==> Continue(lines, source, read) == r
    ensures r.Ok? ==> Continue(lines, source, read) == Run(lines, source, r.value)
  {
  }

  /** The state read from `st` and the line it reads. */
  function ReadState(st: State): State {
    st.(cursor := st.cursor + 1, lineNo := st.lineNo + 1)
  }

  /** `err` and `post` are what parsing the next line after `st` gives. */
  ghost predicate TurnOutcome(lines: seq<string>, source: string, st: State, err: Option<ParseError>, post: State)
    requires Settled(lines, st) && st.cursor < |lines|
  {
    var r := LineStep(lines, source, ReadState(st), lines[st.cursor]);
    && (r.Err? ==> err == Some(r.error))
    && (r.Ok? ==> err.None? && post == r.value)
  }

  /** A turn that fails ends the run with its error; one that succeeds
      leaves a state the rest of the run continues from. */
  lemma TurnKeepsRun(lines: seq<string>, source: string, st: State, err: Option<ParseError>, post: State)
    requires Settled(lines, st) && st.cursor < |lines|
    requires TurnOutcome(lines, source, st, err, post)
    ensures err.Some? ==> Run(lines, source, st) == Err(err.value)
    ensures err.None? ==> Settled(lines, post) && st.cursor < post.cursor && Run(lines, source, post) == Run(lines, source, st)
  {
    RunReads(lines, source, st);
    ContinueParses(lines, source, ReadState(st), LineStep(lines, source, ReadState(st), lines[st.cursor]));
  }

  class Parser {
    const doc: Document
    const lines: seq<string>
    /** Whether the stream was in a good state when parsing began. */
    const readable: bool
    /** Index of the next line to read; `|lines|` is the end of the stream. */
    var cursor: nat
    var currentDepth: nat
    var currentLine: nat
    var currentParent: Option<nat>
    var previousNode: Option<nat>

    /** The parser's fields as a value. */
    ghost function St(): State
      reads this, doc
    {
      State(doc.nodes, cursor, currentDepth, currentLine, currentParent, previousNode)
    }

    ghost predicate Valid()
      reads this, doc
    {
      Settled(lines, St())
    }

    constructor (doc: Document, text: string, readable: bool)
      requires doc.nodes == [RootNode()]
      ensures Valid()
      ensures this.doc == doc && lines == Lines(text) && this.readable == readable
      ensures cursor == 0 && currentDepth == 0 && currentLine == 0
      ensures currentParent == Some(0) && previousNode == None
    {
      this.doc := doc;
      lines := Lines(text);
      this.readable := readable;
      cursor := 0;
      currentDepth := 0;
      currentLine := 0;
      currentParent := Some(0);
      previousNode := None;
    }

    /** `getNextLine`: counts a line and reads it; at the end of the stream
        the read gives an empty line and the position stays put. */
    method GetNextLine() returns (line: string)
      requires cursor <= |lines|
      modifies this
      ensures currentLine == old(currentLine) + 1
      ensures old(cursor) < |lines| ==> line == lines[old(cursor)] && cursor == old(cursor) + 1
      ensures old(cursor) == |lines| ==> line == "" && cursor == old(cursor)
      ensures currentDepth == old(currentDepth) && currentParent == old(currentParent)
      ensures previousNode == old(previousNode)
    {
      currentLine := currentLine + 1;
      if cursor < |lines| {
        line := lines[cursor];
        cursor := cursor + 1;
      } else {
        line := "";
      }
    }

    /** `getLineDepth`, with its space-counting loop. */
    method GetLineDepth(line: string, multilining: bool) returns (r: Result<nat>)
      ensures r == LineDepth(line, multilining, currentDepth, currentLine)
    {
      if Trim(line) == [] {
        return Ok(0);
      }
      var spaces := 0;
      LeadingSpacesMeaning(line);
      while line[spaces] == ' '
        invariant spaces <= LeadingSpaces(line) < |line|
        decreases LeadingSpaces(line) - spaces
      {
        spaces := spaces + 1;
      }
      var depth := spaces / 2;
      if !multilining || depth <= currentDepth {
        if line[spaces] == '\t' {
          return Err(TabIndentation(currentLine));
        }
        if spaces % 2 != 0 {
          return Err(OddIndentation(currentLine));
        }
      }
      return Ok(depth);
    }

    /** The `do ... while` loop of `parseNode` that collects the lines of a
        block scalar below a node at the current depth, un-reading the first
        line that is not part of it. */
    method ReadBlockScalar() returns (r: Result<string>)
      requires cursor <= |lines|
      modifies this
      ensures var b := BlockExtent(lines, old(cursor), old(currentLine), old(currentDepth));
        && (b.Err? ==> r == Err(b.error))
        && (b.Ok? ==> r == Ok(BlockData(lines, old(cursor), b.value.next, old(currentDepth)))
                      && cursor == b.value.next && currentLine == b.value.lineNo)
      ensures currentDepth == old(currentDepth) && currentParent == old(currentParent)
      ensures previousNode == old(previousNode)
    {
      var data := "";
      ghost var start, firstLine, d := cursor, currentLine, currentDepth;
      ghost var outcome := BlockLoop(lines, start, firstLine, d, "");
      BlockLoopMeetsExtent(lines, start, firstLine, d);
      while true
        invariant cursor <= |lines|
        invariant currentDepth == d && currentParent == old(currentParent)
        invariant previousNode == old(previousNode)
        invariant BlockLoop(lines, cursor, currentLine, d, data) == outcome
        decreases |lines| - cursor
      {
        ghost var k, lineNo, acc := cursor, currentLine, data;
        var done;
        data, done := BlockTurn(data);
        BlockSteppedLoop(lines, k, lineNo, d, acc, data, done, cursor, currentLine);
        if done.Some? {
          return done.value;
        }
      }
    }

    /** One turn of that loop: reads a line and either adds it to `data`
        or ends the block with its text, rewinding over a line that belongs
        to the next node. */
    method BlockTurn(data: string) returns (data': string, done: Option<Result<string>>)
      requires cursor <= |lines|
      modifies this
      ensures cursor <= |lines|
      ensures currentDepth == old(currentDepth) && currentParent == old(currentParent)
      ensures previousNode == old(previousNode)
      ensures BlockStepped(lines, old(cursor), old(currentLine), currentDepth, data, data', done, cursor, currentLine)
    {
      var line := GetNextLine();
      var depth := GetLineDepth(line, true);
      LineDepthMeaning(line, true, currentDepth, currentLine);
      if depth.Err? {
        return data, Some(Err(depth.error));
      }
      data' := data;
      if depth.value > currentDepth {
        data' := data' + line[2 * (currentDepth + 1)..];
      } else if Trim(line) != [] {
        // rewind: the line belongs to the next node
        cursor, currentLine := cursor - 1, currentLine - 1;
        return data', Some(Ok(data'));
      }
      data' := data' + "\n";
      if cursor == |lines| {
        return data', Some(Ok(data'));
      }
      done := None;
    }

    /** `parseNode`: right-trims the line, splits it into tag and value,
        reads the block scalar a block indicator introduces, builds the node
        and attaches it to the current parent. */
    method ParseNode(data: string) returns (err: Option<ParseError>)
      requires Ready(lines, St())
      modifies this, doc`nodes
      ensures var r := NodeStep(lines, doc.source, old(St()), data);
        && (r.Err? ==> err == Some(r.error))
        && (r.Ok? ==> err.None? && St() == r.value)
    {
      var nodeLine := currentLine;
      var line := RightTrim(data);
      var e := SplitFields(line);
      var value := e.value;
      if IsBlockIndicator(e.value) {
        var block := ReadBlockScalar();
        if block.Err? {
          return Some(block.error);
        }
        var chomped := Chomp(block.value, e.value);
        if chomped.None? {
          return Some(ChompUnderflow(currentLine));
        }
        value := chomped.value;
      }
      var node := BuildNode(doc.source, e, value, nodeLine);
      if currentParent.None? {
        return Some(OrphanedNode(e.tag, currentLine));
      }
      previousNode := Some(|doc.nodes|);
      doc.nodes := Attach(doc.nodes, currentParent.value, node);
      return None;
    }

    /** The depth change of `parseLine`: one level down the node last
        created becomes the parent, at the same depth the parent stays, and
        a smaller depth walks up the parent links as many levels as the
        depth fell. */
    method EnterDepth(d: nat)
      requires Valid() && d <= currentDepth + 1
      modifies this
      ensures St() == old(St()).(depth := d, parent := NewParent(old(St()), d))
      ensures Ready(lines, St())
    {
      if d == currentDepth + 1 {
        currentParent := previousNode;
      } else if d < currentDepth {
        var parent := Climb(currentDepth - d);
        currentParent := Some(parent);
      }
      currentDepth := d;
    }

    /** The walk up the parent links from the current parent, `k` levels. */
    method Climb(k: nat) returns (a: nat)
      requires Valid() && k <= currentDepth
      ensures a == Ancestor(doc.nodes, currentParent.value, k)
    {
      a := currentParent.value;
      var i := 0;
      while i < k
        invariant i <= k
        invariant a == Ancestor(doc.nodes, currentParent.value, i)
      {
        AncestorStep(doc.nodes, currentParent.value, i);
        a := doc.nodes[a].parent;
        i := i + 1;
      }
    }

    /** `parseLine` on the line just read. */
    method ParseLine(line: string) returns (err: Option<ParseError>)
      requires Valid()
      modifies this, doc`nodes
      ensures var r := LineStep(lines, doc.source, old(St()), line);
        && (r.Err? ==> err == Some(r.error))
        && (r.Ok? ==> err.None? && St() == r.value)
    {
      var depth := GetLineDepth(line, false);
      if depth.Err? {
        return Some(depth.error);
      }
      var trimmed := Trim(line);
      if trimmed == [] || IsComment(trimmed) {
        return None;
      }
      var d := depth.value;
      if d > currentDepth + 1 {
        return Some(InvalidDepth(currentLine));
      }
      ghost var st := St();
      EnterDepth(d);
      LineStepParses(lines, doc.source, st, line, d);
      err := ParseNode(trimmed);
    }

    /** The loop of `parse`: reads and parses lines until the end of the
        stream, stopping at the first error. */
    method ParseLines() returns (err: Option<ParseError>)
      requires Valid()
      modifies this, doc`nodes
      ensures var r := Run(lines, doc.source, old(St()));
        && (r.Err? ==> err == Some(r.error))
        && (r.Ok? ==> err.None? && St() == r.value)
    {
      ghost var outcome := Run(lines, doc.source, St());
      while cursor < |lines|
        invariant Valid()
        invariant Run(lines, doc.source, St()) == outcome
        decreases |lines| - cursor
      {
        err := ParseTurn();
        if err.Some? {
          return;
        }
      }
      err := None;
    }

    /** One turn of the loop of `parse`: `parseLine(getNextLine())`. */
    method ParseTurn() returns (err: Option<ParseError>)
      requires Valid() && cursor < |lines|
      modifies this, doc`nodes
      ensures err.Some? ==> Run(lines, doc.source, old(St())) == Err(err.value)
      ensures err.None? ==> Valid() && old(cursor) < cursor && Run(lines, doc.source, St()) == Run(lines, doc.source, old(St()))
    {
      ghost var st := St();
      err := ReadAndParse();
      TurnKeepsRun(lines, doc.source, st, err, St());
    }

    /** `parseLine(getNextLine())`, against the step on one line. */
    method ReadAndParse() returns (err: Option<ParseError>)
      requires Valid() && cursor < |lines|
      modifies this, doc`nodes
      ensures TurnOutcome(lines, doc.source, old(St()), err, St())
    {
      ghost var st := St();
      var line := GetNextLine();
      assert St() == ReadState(st) && line == lines[st.cursor];
      err := ParseLine(line);
    }

    /** `parse`: refuses a stream that cannot be read, parses every line,
        and then runs the alias pass over the whole tree from the root, with
        an empty scope and the document's global registry. */
    method Parse() returns (err: Option<ParseError>, log: seq<OtmlAlias.Diagnostic>)
      requires Valid()
      modifies this, doc
      ensures !readable ==> err == Some(CannotRead) && log == [] && doc.nodes == old(doc.nodes)
      ensures err.Some? ==> doc.globalAliases == old(doc.globalAliases)
      ensures readable ==>
        var r := Run(lines, doc.source, old(St()));
        && (r.Err? ==> err == Some(r.error) && log == [])
        && (r.Ok? ==>
              && err.None?
              && doc.nodes == OtmlResolver.Resolved(r.value.nodes, 0, map[])
              && doc.globalAliases == OtmlResolver.LevelPass(r.value.nodes, 0, map[], old(doc.globalAliases), true).global
              && log == OtmlResolver.LogOf(r.value.nodes, 0, map[], true, old(doc.globalAliases)))
    {
      if !readable {
        return Some(CannotRead), [];
      }
      err := ParseLines();
      if err.Some? {
        return err, [];
      }
      log := OtmlResolver.ResolveVariablesRecursive(doc, 0, map[], true);
    }
  }
}
