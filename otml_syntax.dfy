/** What the OTML parser computes from the text of a single line, or of a run
    of block-scalar lines, independently of the tree it is building:
    indentation depth, the split into tag and value, the kind of value, the
    lines a block scalar takes and the chomping of its trailing newlines. */
module OtmlSyntax {
  import opened Text

  /** The parser's exceptions, each with the line number it reports. */
  datatype ParseError =
    | CannotRead                            // "cannot read from input stream"
    | TabIndentation(line: nat)             // "indentation with tabs are not allowed"
    | OddIndentation(line: nat)             // "must indent every 2 spaces"
    | InvalidDepth(line: nat)               // "invalid indentation depth, are you indenting correctly?"
    | OrphanedNode(tag: string, line: nat)  // "orphaned node detected (indentation error?)"
    | ChompUnderflow(line: nat)             // chomping reads before the start of the block text

  datatype Result<T> = Ok(value: T) | Err(error: ParseError)

  /** Number of space characters at the start of `line`. */
  function LeadingSpaces(line: string): (n: nat)
    ensures n <= |line|
    ensures n == |line| || line[n] != ' '
    ensures !IsBlank(line) ==> n < |line|
  {
    SpacesFromMeaning(line, 0);
    SpacesFrom(line, 0)
  }

  /** The end of the run of spaces that starts at position `i`. */
  function SpacesFrom(line: string, i: nat): (n: nat)
    requires i <= |line|
    ensures i <= n <= |line|
    ensures n == |line| || line[n] != ' '
    decreases |line| - i
  {
    if i < |line| && line[i] == ' ' then SpacesFrom(line, i + 1) else i
  }

  /** Every character skipped by `SpacesFrom` is a space. */
  lemma {:induction false} SpacesFromMeaning(line: string, i: nat)
    requires i <= |line|
    ensures forall k :: i <= k < SpacesFrom(line, i) ==> line[k] == ' '
    decreases |line| - i
  {
    if i < |line| && line[i] == ' ' {
      SpacesFromMeaning(line, i + 1);
    }
  }

  /** The indentation counted by `LeadingSpaces` is made of spaces only. */
  lemma LeadingSpacesMeaning(line: string)
    ensures forall i :: 0 <= i < LeadingSpaces(line) ==> line[i] == ' '
  {
    SpacesFromMeaning(line, 0);
  }

  /** The checks of the indentation apply: always, except to a line deeper
      than the current depth read while collecting a block scalar. */
  predicate Checked(spaces: nat, multilining: bool, currentDepth: nat) {
    !multilining || spaces / 2 <= currentDepth
  }

  /** `getLineDepth`: a blank line has depth 0; otherwise the depth is half
      the number of leading spaces, and a checked line fails when a tab
      follows its leading spaces or when their number is odd. */
  function LineDepth(line: string, multilining: bool, currentDepth: nat, lineNo: nat): Result<nat>
  {
    if IsBlank(line) then Ok(0)
    else
      var spaces := LeadingSpaces(line);
      var err := IndentError(line, lineNo);
      if Checked(spaces, multilining, currentDepth) && err.Some? then Err(err.value)
      else Ok(spaces / 2)
  }

  /** What `getLineDepth` returns, case by case. */
  lemma LineDepthMeaning(line: string, multilining: bool, currentDepth: nat, lineNo: nat)
    ensures var r := LineDepth(line, multilining, currentDepth, lineNo);
      && (IsBlank(line) ==> r == Ok(0))
      && (r.Ok? ==> 2 * r.value <= LeadingSpaces(line))
      && (r.Ok? && !IsBlank(line) ==> r.value == LeadingSpaces(line) / 2)
      && (r.Err? ==> !IsBlank(line) && Checked(LeadingSpaces(line), multilining, currentDepth))
      && (!IsBlank(line) && Checked(LeadingSpaces(line), multilining, currentDepth) ==>
            && LeadingSpaces(line) < |line|
            && (r == Err(TabIndentation(lineNo)) <==> line[LeadingSpaces(line)] == '\t')
            && (r == Err(OddIndentation(lineNo)) <==> line[LeadingSpaces(line)] != '\t' && LeadingSpaces(line) % 2 == 1)
            && (r.Ok? ==> LeadingSpaces(line) == 2 * r.value && line[2 * r.value] != '\t'))
  {
  }

  /** The indentation checks of a non-blank line: a tab right after the
      leading spaces, or an odd number of them. */
  function IndentError(line: string, lineNo: nat): (r: Option<ParseError>)
    requires LeadingSpaces(line) < |line|
    ensures r == Some(TabIndentation(lineNo)) <==> line[LeadingSpaces(line)] == '\t'
    ensures r == Some(OddIndentation(lineNo)) <==> line[LeadingSpaces(line)] != '\t' && LeadingSpaces(line) % 2 == 1
    ensures r.Some? ==> r == Some(TabIndentation(lineNo)) || r == Some(OddIndentation(lineNo))
  {
    var spaces := LeadingSpaces(line);
    if line[spaces] == '\t' then Some(TabIndentation(lineNo))
    else if spaces % 2 != 0 then Some(OddIndentation(lineNo))
    else None
  }

  /** A tab right after the leading spaces of a non-blank line is rejected
      whenever the line is checked, whatever the rest of the document says. */
  lemma TabsRejected(line: string, currentDepth: nat, lineNo: nat)
    requires !IsBlank(line)
    requires LeadingSpaces(line) < |line| && line[LeadingSpaces(line)] == '\t'
    ensures LineDepth(line, false, currentDepth, lineNo) == Err(TabIndentation(lineNo))
    ensures LeadingSpaces(line) / 2 <= currentDepth ==> LineDepth(line, true, currentDepth, lineNo) == Err(TabIndentation(lineNo))
  {
    LineDepthMeaning(line, false, currentDepth, lineNo);
    LineDepthMeaning(line, true, currentDepth, lineNo);
  }

  /** A trimmed line the parser skips as a comment. */
  predicate IsComment(line: string) {
    StartsWith(line, "//") || StartsWith(line, "#")
  }

  predicate IsLineEndSpace(c: char) {
    c == ' ' || c == '\t' || c == '\r'
  }

  /** The right trim at the start of `parseNode`: drops trailing spaces, tabs
      and carriage returns. */
  function StripLineEnd(s: string): string
  {
    if s != [] && IsLineEndSpace(s[|s| - 1]) then StripLineEnd(s[..|s| - 1]) else s
  }

  /** `StripLineEnd` keeps a prefix, which does not end in a space, tab or
      carriage return, and drops only such characters. */
  lemma {:induction false} StripLineEndMeaning(s: string)
    ensures var r := StripLineEnd(s);
      && |r| <= |s| && r == s[..|r|]
      && (r == [] || !IsLineEndSpace(r[|r| - 1]))
      && (forall i :: |r| <= i < |s| ==> IsLineEndSpace(s[i]))
  {
    if s != [] && IsLineEndSpace(s[|s| - 1]) {
      StripLineEndMeaning(s[..|s| - 1]);
      assert s[..|s| - 1][..|StripLineEnd(s)|] == s[..|StripLineEnd(s)|];
    }
  }

  predicate IsUrl(line: string) {
    StartsWith(line, "http://") || StartsWith(line, "https://")
  }

  /** Where the host part of a URL line begins: just after its "://". */
  function SchemeLength(line: string): nat {
    if StartsWith(line, "http://") then 7 else 8
  }

  lemma SchemeEnd(line: string)
    requires IsUrl(line)
    ensures FindFrom(line, "://", 0) == Some(SchemeLength(line) - 3)
  {
    var k := SchemeLength(line) - 3;
    assert line[..k] == if k == 4 then "http" else "https";
    forall j | 0 <= j < k ensures !OccursAt(line, "://", j) {
      assert line[j] == line[..k][j];
      if j + 3 <= |line| {
        assert line[j..j + 3][0] == line[j];
      }
    }
    assert OccursAt(line, "://", k) by {
      assert line[..k + 3] == if k == 4 then "http://" else "https://";
      assert line[k..k + 3] == line[..k + 3][k..];
    }
  }

  lemma OccursAtChar(s: string, c: char, k: nat)
    ensures OccursAt(s, [c], k) <==> k < |s| && s[k] == c
  {
    if k < |s| {
      assert s[k..k + 1] == [s[k]];
    }
  }

  /** The position of the key/value separator of a line. For a URL it is the
      first ": " after the "://" (failing that, the first ":\t" there), never a
      colon of the scheme, a port or a path; otherwise it is the first ':'. */
  function SeparatorPos(line: string): (r: Option<nat>)
    ensures !IsUrl(line) ==> (r.Some? <==> ':' in line)
    ensures !IsUrl(line) && r.Some? ==> r.value < |line| && line[r.value] == ':' && ':' !in line[..r.value]
    ensures IsUrl(line) && r.Some? ==>
      SchemeLength(line) <= r.value && (OccursAt(line, ": ", r.value) || OccursAt(line, ":\t", r.value))
    ensures IsUrl(line) ==>
      (forall k :: SchemeLength(line) <= k && OccursAt(line, ": ", k) ==> r.Some? && r.value <= k)
    ensures IsUrl(line) && r.None? ==>
      forall k :: SchemeLength(line) <= k ==> !OccursAt(line, ":\t", k)
    ensures IsUrl(line) && r.Some? && !OccursAt(line, ": ", r.value) ==>
      && OccursAt(line, ":\t", r.value)
      && (forall k :: SchemeLength(line) <= k ==> !OccursAt(line, ": ", k))
      && (forall k :: SchemeLength(line) <= k < r.value ==> !OccursAt(line, ":\t", k))
  {
    if IsUrl(line) then
      var schemeEnd := FindFrom(line, "://", 0);
      var from := if schemeEnd.Some? then schemeEnd.value + 3 else 0;
      SchemeEnd(line);
      var space := FindFrom(line, ": ", from);
      if space.Some? then space else FindFrom(line, ":\t", from)
    else
      var r := FindFrom(line, ":", 0);
      assert forall k: nat :: OccursAt(line, ":", k) <==> k < |line| && line[k] == ':' by {
        forall k: nat ensures OccursAt(line, ":", k) <==> k < |line| && line[k] == ':' {
          OccursAtChar(line, ':', k);
        }
      }
      assert r.Some? ==> ':' !in line[..r.value] by {
        if r.Some? {
          forall i | 0 <= i < r.value ensures line[i] != ':' {
            assert !OccursAt(line, ":", i);
          }
        }
      }
      assert r.None? ==> ':' !in line by {
        if r.None? {
          forall i | 0 <= i < |line| ensures line[i] != ':' {
            assert !OccursAt(line, ":", i);
          }
        }
      }
      r
  }

  /** Tag, value and `unique` flag of a node line, before any block scalar. */
  datatype Entry = Entry(tag: string, value: string, unique: bool)

  /** The tag/value split of `parseNode`, after its right trim: both the
      tag and the value come out trimmed. */
  function SplitLine(data: string): (e: Entry)
    ensures Trim(e.tag) == e.tag && Trim(e.value) == e.value
  {
    SplitFieldsTrimmed(StripLineEnd(data));
    SplitFields(StripLineEnd(data))
  }

  lemma SplitFieldsTrimmed(line: string)
    ensures var e := SplitFields(line); Trim(e.tag) == e.tag && Trim(e.value) == e.value
  {
    var e := SplitFields(line);
    var dots := SeparatorPos(line);
    assert Trim("") == "";
    if IsUrl(line) && line[|line| - 1] == ':' {
      var tag := line[..|line| - 1];
      assert e == Entry(Trim(tag), "", true);
      TrimIdempotent(tag);
    } else if line != [] && line[0] == '-' {
      var value := line[1..];
      assert e == Entry("", Trim(value), dots.Some?);
      TrimIdempotent(value);
    } else if dots.Some? {
      var k := dots.value;
      assert OccursAt(line, ": ", k) || OccursAt(line, ":\t", k) || k < |line|;
      var tag, value := line[..k], line[k + 1..];
      assert e == Entry(Trim(tag), Trim(value), true);
      TrimIdempotent(tag);
      TrimIdempotent(value);
    } else {
      assert e == Entry(Trim(line), "", false);
      TrimIdempotent(line);
    }
  }

  /** The tag/value split of a line with no trailing white space; the
      lemmas below state it case by case. */
  function SplitFields(line: string): Entry
  {
    if IsUrl(line) && line[|line| - 1] == ':' then
      Entry(Trim(line[..|line| - 1]), "", true)
    else
      var dots := SeparatorPos(line);
      if line != [] && line[0] == '-' then
        Entry("", Trim(line[1..]), dots.Some?)
      else if dots.Some? then
        assert OccursAt(line, ": ", dots.value) || OccursAt(line, ":\t", dots.value) || dots.value < |line|;
        Entry(Trim(line[..dots.value]), Trim(line[dots.value + 1..]), true)
      else
        Entry(Trim(line), "", false)
  }

  lemma UrlStart(line: string)
    requires IsUrl(line)
    ensures |line| >= 7 && line[0] == 'h'
  {
    if StartsWith(line, "http://") {
      assert line[0] == line[..7][0];
    } else {
      assert line[0] == line[..8][0];
    }
  }

  /** A URL ending in ':' is a key with no value. */
  lemma SplitUrlKey(line: string)
    requires IsUrl(line) && line[|line| - 1] == ':'
    ensures SplitFields(line) == Entry(Trim(line[..|line| - 1]), "", true)
  {
  }

  /** A list item has no tag and the trimmed rest of the line as its value;
      it is still flagged unique when it holds a colon. */
  lemma SplitListItem(line: string)
    requires line != [] && line[0] == '-'
    ensures var e := SplitFields(line);
      e.tag == "" && e.value == Trim(line[1..]) && (e.unique <==> ':' in line)
  {
    if IsUrl(line) {
      UrlStart(line);
      assert false;
    }
  }

  /** Any other line splits at its first colon: the trimmed text before it
      is the tag, the trimmed text after it the value. */
  lemma SplitFirstColon(line: string, k: nat)
    requires k < |line| && line[k] == ':' && ':' !in line[..k]
    requires !IsUrl(line) && line[0] != '-'
    ensures SplitFields(line) == Entry(Trim(line[..k]), Trim(line[k + 1..]), true)
  {
    var dots := SeparatorPos(line);
    assert line[..k + 1][k] == ':';
    assert dots.Some?;
    FirstOccurrence(line, ':', dots.value, k);
  }

  /** Two positions that both hold the first occurrence of `c` are one. */
  lemma FirstOccurrence(s: string, c: char, j: nat, k: nat)
    requires j < |s| && s[j] == c && c !in s[..j]
    requires k < |s| && s[k] == c && c !in s[..k]
    ensures j == k
  {
  }

  /** A line without a colon is all tag, with no value, and not unique. */
  lemma SplitBareKey(line: string)
    requires !IsUrl(line) && (line == [] || line[0] != '-') && ':' !in line
    ensures SplitFields(line) == Entry(Trim(line), "", false)
  {
  }

  /** A URL key splits at its separator after the "://", or is all tag. */
  lemma SplitUrlPair(line: string)
    requires IsUrl(line) && line[|line| - 1] != ':'
    ensures var k := SeparatorPos(line);
      (k.Some? ==> SplitFields(line) == Entry(Trim(line[..k.value]), Trim(line[k.value + 1..]), true)) &&
      (k.None? ==> SplitFields(line) == Entry(Trim(line), "", false))
  {
    UrlStart(line);
  }

  /** The value of a node once the line is parsed. */
  datatype NodeValue = Null | List(items: seq<string>) | Scalar(text: string)

  /** `value.substr(1, value.length() - 2)`: for a one-character value the
      length wraps around to "up to the end", which is empty. */
  function ListInterior(value: string): string
    requires |value| >= 1
  {
    if |value| >= 2 then value[1..|value| - 1] else ""
  }

  function TrimAll(tokens: seq<string>): (r: seq<string>)
    ensures |r| == |tokens| && forall i :: 0 <= i < |r| ==> r[i] == Trim(tokens[i])
  {
    seq(|tokens|, i requires 0 <= i < |tokens| => Trim(tokens[i]))
  }

  /** `~` is null; a value between `[` and `]` is a list; anything else is
      a scalar. */
  function ParseValue(value: string): (v: NodeValue)
    ensures v.Null? <==> value == "~"
    ensures v.List? <==> value != "~" && StartsWith(value, "[") && EndsWith(value, "]")
    ensures v.Scalar? ==> v.text == value
  {
    if value == "~" then Null
    else if StartsWith(value, "[") && EndsWith(value, "]") then List(TrimAll(Split(ListInterior(value), ',')))
    else Scalar(value)
  }

  /** The entries of a list are the trimmed comma-separated pieces of its
      inside, in order; none of them holds a comma or has white space at
      either end. */
  lemma ParseValueItems(value: string)
    requires ParseValue(value).List?
    ensures var items := ParseValue(value).items;
      && var pieces := Split(ListInterior(value), ',');
      && |items| == |pieces| && (forall i :: 0 <= i < |pieces| ==> items[i] == Trim(pieces[i]))
      && (forall item :: item in items ==> ',' !in item && Trim(item) == item)
  {
    var pieces := Split(ListInterior(value), ',');
    var items := ParseValue(value).items;
    forall item | item in items ensures ',' !in item && Trim(item) == item {
      var i :| 0 <= i < |items| && items[i] == item;
      assert pieces[i] in pieces;
      TrimIdempotent(pieces[i]);
      assert forall c :: c in item ==> c in pieces[i] by {
        TrimSubsequence(pieces[i]);
      }
    }
  }

  /** The three block-scalar indicators: `|` keeps one final newline, `|-`
      none, `|+` all of them. */
  predicate IsBlockIndicator(value: string) {
    value == "|" || value == "|-" || value == "|+"
  }

  /** A non-blank line at or above `depth`: it ends a block scalar. */
  predicate Shallow(line: string, depth: nat) {
    !IsBlank(line) && LeadingSpaces(line) / 2 <= depth
  }

  /** What a line inside a block scalar contributes: a deeper line its text
      past the block's indentation, a blank line nothing; each a newline. */
  function BlockLine(line: string, depth: nat): string {
    if LeadingSpaces(line) >= 2 * (depth + 1) && !IsBlank(line) then line[2 * (depth + 1)..] + "\n" else "\n"
  }

  /** What the lines from `lo` up to `hi` contribute to a block, in order. */
  function BlockText(lines: seq<string>, lo: nat, hi: nat, depth: nat): string
    requires lo <= hi <= |lines|
    decreases hi - lo
  {
    if lo == hi then "" else BlockText(lines, lo, hi - 1, depth) + BlockLine(lines[hi - 1], depth)
  }

  /** How a line read inside a block scalar below depth `depth` falls out,
      given the depth `getLineDepth` finds for it: deeper lines and blank
      lines belong to the block, a shallow line passed the indentation
      checks. */
  lemma BlockLineRead(line: string, depth: nat, lineNo: nat)
    requires LineDepth(line, true, depth, lineNo).Ok?
    ensures var d := LineDepth(line, true, depth, lineNo).value;
      && (d > depth ==> !Shallow(line, depth) && 2 * (depth + 1) <= |line|
                        && BlockLine(line, depth) == line[2 * (depth + 1)..] + "\n")
      && (IsBlank(line) ==> d == 0 && !Shallow(line, depth) && BlockLine(line, depth) == "\n")
      && (d <= depth && !IsBlank(line) ==> Shallow(line, depth) && IndentError(line, lineNo).None?)
  {
    LineDepthMeaning(line, true, depth, lineNo);
    var d := LineDepth(line, true, depth, lineNo).value;
    if d > depth {
      assert !IsBlank(line);
      assert LeadingSpaces(line) >= 2 * (depth + 1);
    }
  }

  /** Where the stream and the line counter stand once a block scalar is
      read. */
  datatype Extent = Extent(next: nat, lineNo: nat)

  /** How far the `do ... while (!in.eof())` loop of `parseNode` reads when
      it collects a block scalar below a node at `depth`, starting at stream
      position `at` with line counter `lineNo`. It takes every line that is
      blank or deeper than the node and stops before the first shallow line,
      which is un-read once it passes the indentation checks; a read at the
      end of the stream gives an empty line. */
  function BlockExtent(lines: seq<string>, at: nat, lineNo: nat, depth: nat): (r: Result<Extent>)
    requires at <= |lines|
    ensures r.Ok? ==> at <= r.value.next <= |lines|
    ensures r.Ok? ==> r.value.lineNo == lineNo + (r.value.next - at) + (if at == |lines| then 1 else 0)
    ensures r.Ok? ==> forall j {:trigger Shallow(lines[j], depth)} :: at <= j < r.value.next ==> !Shallow(lines[j], depth)
    ensures r.Ok? && r.value.next < |lines| ==>
      Shallow(lines[r.value.next], depth) && IndentError(lines[r.value.next], r.value.lineNo + 1).None?
    decreases |lines| - at
  {
    if at == |lines| then
      Ok(Extent(at, lineNo + 1))
    else if Shallow(lines[at], depth) then
      var err := IndentError(lines[at], lineNo + 1);
      if err.Some? then Err(err.value) else Ok(Extent(at, lineNo))
    else if at + 1 == |lines| then
      Ok(Extent(at + 1, lineNo + 1))
    else
      BlockExtent(lines, at + 1, lineNo + 1, depth)
  }

  /** The raw text of a block scalar: what each line it takes contributes, in
      order; the empty line read at the end of the stream adds a newline. */
  function BlockData(lines: seq<string>, at: nat, next: nat, depth: nat): string
    requires at <= next <= |lines|
  {
    BlockText(lines, at, next, depth) + if at == |lines| then "\n" else ""
  }

  /** A block that takes the lines from `at` up to `next`, where the stream
      either ends or a shallow line passes the indentation checks, ends
      there. */
  lemma {:induction false} BlockExtentTakes(lines: seq<string>, at: nat, lineNo: nat, depth: nat, next: nat)
    requires at < |lines| && at <= next <= |lines|
    requires forall j {:trigger Shallow(lines[j], depth)} :: at <= j < next ==> !Shallow(lines[j], depth)
    requires next < |lines| ==>
      Shallow(lines[next], depth) && IndentError(lines[next], lineNo + (next - at) + 1).None?
    ensures BlockExtent(lines, at, lineNo, depth) == Ok(Extent(next, lineNo + (next - at)))
    decreases next - at
  {
    if next > at && at + 1 < |lines| {
      BlockExtentTakes(lines, at + 1, lineNo + 1, depth, next);
    }
  }

  /** A block whose first shallow line, at `k`, fails the indentation checks
      fails with that line's error. */
  lemma {:induction false} BlockExtentFails(lines: seq<string>, at: nat, lineNo: nat, depth: nat, k: nat)
    requires at <= k < |lines|
    requires forall j {:trigger Shallow(lines[j], depth)} :: at <= j < k ==> !Shallow(lines[j], depth)
    requires Shallow(lines[k], depth) && IndentError(lines[k], lineNo + (k - at) + 1).Some?
    ensures BlockExtent(lines, at, lineNo, depth) == Err(IndentError(lines[k], lineNo + (k - at) + 1).value)
    decreases k - at
  {
    if k > at {
      BlockExtentFails(lines, at + 1, lineNo + 1, depth, k);
    }
  }

  /** The text collected by the block-scalar loop, where the stream and the
      line counter stand when it stops. */
  datatype BlockRead = BlockRead(data: string, next: nat, lineNo: nat)

  /** The block-scalar loop of `parseNode` turn by turn, from stream position
      `at` with line counter `lineNo` and the text `acc` collected so far:
      each turn counts and reads a line (an empty one at the end of the
      stream), fails on an indentation error, stops before a shallow
      non-blank line, and otherwise adds the line's text past the block's
      indentation (nothing for a blank line) and a newline; it also stops once
      the stream is exhausted. */
  function BlockLoop(lines: seq<string>, at: nat, lineNo: nat, depth: nat, acc: string): Result<BlockRead>
    requires at <= |lines|
    decreases |lines| - at
  {
    var line := if at < |lines| then lines[at] else "";
    var next := if at < |lines| then at + 1 else at;
    var d := LineDepth(line, true, depth, lineNo + 1);
    LineDepthMeaning(line, true, depth, lineNo + 1);
    if d.Err? then Err(d.error)
    else if d.value <= depth && !IsBlank(line) then Ok(BlockRead(acc, at, lineNo))
    else
      var acc' := if d.value > depth then (acc + line[2 * (depth + 1)..]) + "\n" else acc + "\n";
      if next == |lines| then Ok(BlockRead(acc', next, lineNo + 1))
      else BlockLoop(lines, next, lineNo + 1, depth, acc')
  }

  /** One turn of the block-scalar loop, read off its definition. */
  lemma BlockLoopTurn(lines: seq<string>, at: nat, lineNo: nat, depth: nat, acc: string, line: string, d: Result<nat>)
    requires at <= |lines|
    requires line == if at < |lines| then lines[at] else ""
    requires d == LineDepth(line, true, depth, lineNo + 1)
    ensures d.Err? ==> BlockLoop(lines, at, lineNo, depth, acc) == Err(d.error)
    ensures d.Ok? && d.value <= depth && !IsBlank(line) ==> BlockLoop(lines, at, lineNo, depth, acc) == Ok(BlockRead(acc, at, lineNo))
    ensures d.Ok? && d.value > depth ==> 2 * (depth + 1) <= |line|
    ensures d.Ok? && (d.value > depth || IsBlank(line)) ==>
      var acc' := if d.value > depth then (acc + line[2 * (depth + 1)..]) + "\n" else acc + "\n";
      var next := if at < |lines| then at + 1 else at;
      BlockLoop(lines, at, lineNo, depth, acc) ==
        if next == |lines| then Ok(BlockRead(acc', next, lineNo + 1)) else BlockLoop(lines, next, lineNo + 1, depth, acc')
  {
  }

  /** One turn of the block-scalar loop from line `at` with the text `acc`
      read so far: the turn fails, or ends the block with `acc` and leaves
      the stream at `at`, or takes the line into `acc'` and moves on to
      `at'`; `done` says whether that was the last line. */
  ghost predicate BlockStepped(lines: seq<string>, at: nat, lineNo: nat, depth: nat, acc: string,
                               acc': string, done: Option<Result<string>>, at': nat, lineNo': nat)
    requires at <= |lines|
  {
    var line := if at < |lines| then lines[at] else "";
    var next := if at < |lines| then at + 1 else at;
    var d := LineDepth(line, true, depth, lineNo + 1);
    if d.Err? then done == Some(Err(d.error))
    else if d.value <= depth && !IsBlank(line) then done == Some(Ok(acc)) && at' == at && lineNo' == lineNo
    else
      && (d.value > depth ==> 2 * (depth + 1) <= |line| && acc' == (acc + line[2 * (depth + 1)..]) + "\n")
      && (d.value <= depth ==> acc' == acc + "\n")
      && at' == next && lineNo' == lineNo + 1
      && done == (if next == |lines| then Some(Ok(acc')) else None)
  }

  /** A turn ends the loop with its outcome or leaves the rest of the loop
      to do from where it stands. */
  lemma BlockSteppedLoop(lines: seq<string>, at: nat, lineNo: nat, depth: nat, acc: string,
                         acc': string, done: Option<Result<string>>, at': nat, lineNo': nat)
    requires at <= |lines|
    requires BlockStepped(lines, at, lineNo, depth, acc, acc', done, at', lineNo')
    ensures var b := BlockLoop(lines, at, lineNo, depth, acc);
      && (done.Some? && done.value.Err? ==> b == Err(done.value.error))
      && (done.Some? && done.value.Ok? ==> b == Ok(BlockRead(done.value.value, at', lineNo')))
      && (done.None? ==> at < at' < |lines| && b == BlockLoop(lines, at', lineNo', depth, acc'))
  {
    var line := if at < |lines| then lines[at] else "";
    BlockLoopTurn(lines, at, lineNo, depth, acc, line, LineDepth(line, true, depth, lineNo + 1));
  }

  /** A turn of the loop over a line that is deeper than the block's node
      or blank adds the line's contribution to the text and goes on. */
  lemma BlockLoopTakes(lines: seq<string>, start: nat, at: nat, lineNo: nat, depth: nat)
    requires start <= at < |lines|
    requires !Shallow(lines[at], depth)
    ensures var acc' := BlockText(lines, start, at + 1, depth);
      BlockLoop(lines, at, lineNo, depth, BlockText(lines, start, at, depth)) ==
        if at + 1 == |lines| then Ok(BlockRead(acc', at + 1, lineNo + 1))
        else BlockLoop(lines, at + 1, lineNo + 1, depth, acc')
  {
    var line := lines[at];
    var acc := BlockText(lines, start, at, depth);
    var d := LineDepth(line, true, depth, lineNo + 1);
    LineDepthMeaning(line, true, depth, lineNo + 1);
    assert d.Ok?;
    BlockLineRead(line, depth, lineNo + 1);
    var acc' := if d.value > depth then (acc + line[2 * (depth + 1)..]) + "\n" else acc + "\n";
    assert acc' == acc + BlockLine(line, depth) by {
      if d.value > depth {
        assert (acc + line[2 * (depth + 1)..]) + "\n" == acc + (line[2 * (depth + 1)..] + "\n");
      }
    }
    assert BlockText(lines, start, at + 1, depth) == acc + BlockLine(line, depth);
  }

  /** A turn of the loop over a shallow line ends the block: with the line's
      indentation error, or before the line. */
  lemma BlockLoopStops(lines: seq<string>, at: nat, lineNo: nat, depth: nat, acc: string)
    requires at < |lines|
    requires Shallow(lines[at], depth)
    ensures var err := IndentError(lines[at], lineNo + 1);
      BlockLoop(lines, at, lineNo, depth, acc) ==
        if err.Some? then Err(err.value) else Ok(BlockRead(acc, at, lineNo))
  {
    LineDepthMeaning(lines[at], true, depth, lineNo + 1);
  }

  /** The loop reads exactly the extent of the block and adds its lines'
      text to what it collected before. */
  lemma {:induction false} BlockLoopReadsBlock(lines: seq<string>, start: nat, at: nat, lineNo: nat, depth: nat)
    requires start <= at < |lines|
    ensures var b := BlockExtent(lines, at, lineNo, depth);
      BlockLoop(lines, at, lineNo, depth, BlockText(lines, start, at, depth)) ==
        if b.Err? then Err(b.error)
        else Ok(BlockRead(BlockText(lines, start, b.value.next, depth), b.value.next, b.value.lineNo))
    decreases |lines| - at
  {
    if Shallow(lines[at], depth) {
      BlockLoopStops(lines, at, lineNo, depth, BlockText(lines, start, at, depth));
    } else {
      BlockLoopTakes(lines, start, at, lineNo, depth);
      if at + 1 < |lines| {
        BlockLoopReadsBlock(lines, start, at + 1, lineNo + 1, depth);
      }
    }
  }

  /** The block-scalar loop started with nothing collected reads the extent
      of the block and collects the block's raw text. */
  lemma BlockLoopMeetsExtent(lines: seq<string>, at: nat, lineNo: nat, depth: nat)
    requires at <= |lines|
    ensures var b := BlockExtent(lines, at, lineNo, depth);
      && (b.Err? ==> BlockLoop(lines, at, lineNo, depth, "") == Err(b.error))
      && (b.Ok? ==> BlockLoop(lines, at, lineNo, depth, "") ==
                    Ok(BlockRead(BlockData(lines, at, b.value.next, depth), b.value.next, b.value.lineNo)))
  {
    var b := BlockExtent(lines, at, lineNo, depth);
    if at < |lines| {
      assert BlockText(lines, at, at, depth) == "";
      BlockLoopReadsBlock(lines, at, at, lineNo, depth);
      if b.Ok? {
        var text := BlockText(lines, at, b.value.next, depth);
        assert BlockData(lines, at, b.value.next, depth) == text + "";
        assert text + "" == text;
      }
    } else {
      assert LineDepth("", true, depth, lineNo + 1) == Ok(0);
      assert BlockData(lines, at, at, depth) == "" + "\n";
    }
  }

  /** Drops every newline at the end of `s`. */
  function StripTrailingNewlines(s: string): string
  {
    if s != [] && s[|s| - 1] == '\n' then StripTrailingNewlines(s[..|s| - 1]) else s
  }

  /** What is left is a prefix of `s` that does not end in a newline, and
      everything dropped was a newline. */
  lemma {:induction false} StripTrailingNewlinesMeaning(s: string)
    ensures var r := StripTrailingNewlines(s);
      && |r| <= |s| && r == s[..|r|]
      && (r == [] || r[|r| - 1] != '\n')
      && (forall i :: |r| <= i < |s| ==> s[i] == '\n')
    decreases |s|
  {
    if s != [] && s[|s| - 1] == '\n' {
      StripTrailingNewlinesMeaning(s[..|s| - 1]);
    }
  }

  /** The chomping of a block scalar's text. None stands for the source's
      read before the start of the text, which happens under `|` and `|-`
      when the text holds nothing but newlines. */
  function Chomped(data: string, indicator: string): (r: Option<string>)
    requires IsBlockIndicator(indicator)
    ensures indicator == "|+" ==> r == Some(data)
  {
    if indicator == "|+" then Some(data)
    else
      var body := StripTrailingNewlines(data);
      if body == [] then None
      else Some(if indicator == "|" then body + "\n" else body)
  }

  /** What chomping keeps: `|+` keeps the text as it is; `|` and `|-` fail
      exactly on a text of nothing but newlines, and otherwise keep the text
      up to its last character that is not a newline, `|` adding back one
      newline. */
  lemma ChompedMeaning(data: string, indicator: string)
    requires IsBlockIndicator(indicator)
    ensures var r := Chomped(data, indicator);
      && (r.None? <==> indicator != "|+" && forall i :: 0 <= i < |data| ==> data[i] == '\n')
      && (r.Some? && indicator == "|" ==>
            |r.value| >= 2 && r.value[|r.value| - 1] == '\n' && r.value[|r.value| - 2] != '\n')
      && (r.Some? && indicator == "|-" ==> r.value != [] && r.value[|r.value| - 1] != '\n')
      && (r.Some? && indicator == "|-" ==> r.value == StripTrailingNewlines(data))
      && (r.Some? && indicator == "|" ==> r.value == StripTrailingNewlines(data) + "\n")
      && (r.Some? && indicator != "|+" ==>
            var kept := StripTrailingNewlines(data);
            StartsWith(data, kept) && StartsWith(r.value, kept) && |r.value| <= |kept| + 1)
  {
    var body := StripTrailingNewlines(data);
    StripTrailingNewlinesMeaning(data);
    if indicator != "|+" && body != [] {
      assert data[|body| - 1] == body[|body| - 1];
    }
  }

  /** The chomping loop `while (multiLineData[--lastPos] == '\n') erase`,
      followed by the newline `|` appends. */
  method Chomp(data: string, indicator: string) returns (r: Option<string>)
    requires IsBlockIndicator(indicator)
    ensures r == Chomped(data, indicator)
  {
    var text := data;
    if indicator == "|" || indicator == "|-" {
      var lastPos := |text|;
      while true
        invariant lastPos == |text| && text == data[..lastPos]
        invariant forall i :: lastPos <= i < |data| ==> data[i] == '\n'
        invariant StripTrailingNewlines(text) == StripTrailingNewlines(data)
        decreases lastPos
      {
        if lastPos == 0 {
          // the source reads multiLineData[-1] here
          return None;
        }
        lastPos := lastPos - 1;
        if text[lastPos] != '\n' {
          break;
        }
        text := text[..lastPos];
      }
      if indicator == "|" {
        text := text + "\n";
      }
    }
    return Some(text);
  }
}
