/**
 The MIME boundary-storm preflight of mime_budget.rs.

 `Step` is the closure the scanner runs on every line, `PreflightScanner` the variables that
 closure captures, and `Scan` a whole run.  The partner is `Entity`, a MIME tree in the sense
 of sections 5.1 and 5.1.1 of RFC 2046 with its own part count: for every tree, rendered with
 any line ending, the one-pass scan rejects exactly when the structural part limit does.
 */
module MimeBudget {
  import opened AsciiText
  import opened MimeParameters
  import opened Options
  import opened PhysicalLines

  const MAX_RAW_MESSAGE_BYTES := 50 * 1024 * 1024
  const MAX_MIME_HEADER_BYTES := 1024 * 1024
  const MAX_MIME_PARTS := 1_000
  const MAX_MULTIPART_NESTING := 64

  datatype MimeBudgetError = RawMessageTooLarge | MimeHeadersTooLarge | TooManyMimeParts | MultipartNestingTooDeep

  datatype Result<T> = Ok(value: T) | Err(error: MimeBudgetError)

  datatype RawMessagePreflight = RawMessagePreflight(rawBytes: nat, headerBytes: nat)

  function ValidateHeaderBytes(headerBytes: nat): (r: Result<()>) {
    if headerBytes > MAX_MIME_HEADER_BYTES then Err(MimeHeadersTooLarge) else Ok(())
  }

  function ValidateStructure(partCount: nat, multipartDepth: nat): (r: Result<()>) {
    if partCount > MAX_MIME_PARTS then Err(TooManyMimeParts)
    else if multipartDepth > MAX_MULTIPART_NESTING then Err(MultipartNestingTooDeep)
    else Ok(())
  }

  // ---------------------------------------------------------------- the scanner

  datatype ScanState = ScanState(
    boundaries: set<string>,
    tooManyBoundaries: bool,
    inHeaders: bool,
    contentType: string,
    collecting: bool,
    contentTypeOverBudget: bool,
    openingDelimiters: nat,
    overBudget: bool)
  {
    predicate Stopped() {
      tooManyBoundaries || overBudget || contentTypeOverBudget
    }
  }

  const START := ScanState({}, false, true, "", false, false, 0, false)

  /** The boundary a collected Content-Type declares, when it is one worth tracking. */
  function Declares(contentType: string): (r: Option<string>) {
    match BoundaryOf(contentType)
    case Some(b) => if b != "" && |b| <= 200 then Some(b) else None
    case None => None
  }

  /** `record_mime_boundary`. */
  function Record(st: ScanState): (r: ScanState) {
    match Declares(st.contentType)
    case Some(b) =>
      var boundaries := st.boundaries + {b};
      st.(contentType := "", boundaries := boundaries,
          tooManyBoundaries := st.tooManyBoundaries || |boundaries| >= MAX_MIME_PARTS)
    case None => st.(contentType := "")
  }

  predicate IsContentType(line: string) {
    StartsWithIgnoreCase(line, "content-type:")
  }

  predicate StartsBlank(line: string) {
    line != "" && IsBlank(line[0])
  }

  predicate EndsWith(s: string, suffix: string) {
    |suffix| <= |s| && s[|s| - |suffix|..] == suffix
  }

  function HeaderStep(st: ScanState, line: string): (r: ScanState) {
    if line == "" then Record(st).(collecting := false, inHeaders := false)
    else if StartsBlank(line) && st.collecting then
      if |st.contentType| + 1 + |Trim(line)| <= MAX_MIME_HEADER_BYTES
      then st.(contentType := st.contentType + (" " + Trim(line)))
      else st.(contentTypeOverBudget := true)
    else
      Record(st).(collecting := IsContentType(line), contentType := if IsContentType(line) then line else "")
  }

  function BodyStep(st: ScanState, line: string): (r: ScanState) {
    var delimiter := TrimBlankEnd(line);
    if !StartsWith(delimiter, "--") then st
    else
      var candidate := delimiter[2..];
      if candidate in st.boundaries then
        if st.openingDelimiters + 1 >= MAX_MIME_PARTS
        then st.(openingDelimiters := st.openingDelimiters + 1, overBudget := true)
        else st.(openingDelimiters := st.openingDelimiters + 1, inHeaders := true, collecting := false,
                 contentType := "")
      else if EndsWith(candidate, "--") then
        st.(boundaries := st.boundaries - {candidate[..|candidate| - 2]})
      else st
  }

  function Step(st: ScanState, line: string): (r: ScanState) {
    if st.Stopped() then st
    else if st.inHeaders then HeaderStep(st, line)
    else BodyStep(st, line)
  }

  function Scan(lines: seq<string>, st: ScanState): (r: ScanState) {
    if lines == [] then st else Scan(lines[1..], Step(st, lines[0]))
  }

  function Verdict(st: ScanState): (r: Result<()>) {
    if st.contentTypeOverBudget then Err(MimeHeadersTooLarge)
    else if st.tooManyBoundaries || st.overBudget then Err(TooManyMimeParts)
    else Ok(())
  }

  /** The variables captured by the closure that `preflight_mime_part_count` passes to
      `for_each_line`; `Visit` is that closure. */
  class PreflightScanner {
    var boundaries: set<string>
    var tooManyBoundaries: bool
    var inHeaders: bool
    var contentType: string
    var collecting: bool
    var contentTypeOverBudget: bool
    var openingDelimiters: nat
    var overBudget: bool

    function State(): (st: ScanState)
      reads this
    {
      ScanState(boundaries, tooManyBoundaries, inHeaders, contentType, collecting, contentTypeOverBudget,
                openingDelimiters, overBudget)
    }

    constructor ()
      ensures State() == START
    {
      boundaries := {};
      tooManyBoundaries, inHeaders, contentType, collecting := false, true, "", false;
      contentTypeOverBudget, openingDelimiters, overBudget := false, 0, false;
    }

    method RecordMimeBoundary()
      modifies this`boundaries, this`tooManyBoundaries, this`contentType
      ensures State() == Record(old(State()))
    {
      var boundary := MimeBoundaryParameter(contentType);
      if boundary.Some? && boundary.value != "" && |boundary.value| <= 200 {
        boundaries := boundaries + {boundary.value};
        if |boundaries| >= MAX_MIME_PARTS {
          tooManyBoundaries := true;
        }
      }
      contentType := "";
    }

    method Visit(line: string)
      modifies this
      ensures State() == Step(old(State()), line)
    {
      hide Record, TrimBlankEnd, IsContentType;
      if tooManyBoundaries || overBudget || contentTypeOverBudget {
        return;
      }
      if inHeaders {
        if line == "" {
          RecordMimeBoundary();
          collecting := false;
          inHeaders := false;
        } else if StartsBlank(line) && collecting {
          var continuation := Trim(line);
          if |contentType| + (1 + |continuation|) <= MAX_MIME_HEADER_BYTES {
            contentType := contentType + (" " + continuation);
          } else {
            contentTypeOverBudget := true;
          }
        } else {
          RecordMimeBoundary();
          collecting := IsContentType(line);
          contentType := if collecting then line else "";
        }
        return;
      }
      var delimiter := TrimBlankEnd(line);
      if !StartsWith(delimiter, "--") {
        return;
      }
      var candidate := delimiter[2..];
      if candidate in boundaries {
        openingDelimiters := openingDelimiters + 1;
        if openingDelimiters >= MAX_MIME_PARTS {
          overBudget := true;
        } else {
          inHeaders := true;
          collecting := false;
          contentType := "";
        }
        return;
      }
      if EndsWith(candidate, "--") {
        boundaries := boundaries - {candidate[..|candidate| - 2]};
      }
    }
  }

  function PartCountVerdict(raw: string): (r: Result<()>) {
    Verdict(Scan(Texts(Lines(raw)), START))
  }

  method PreflightMimePartCount(raw: string) returns (r: Result<()>)
    ensures r == PartCountVerdict(raw)
  {
    hide Step, Texts, Lines;
    var lines := ForEachLine(raw);
    var scanner := new PreflightScanner();
    assert lines[0..] == lines;
    for i := 0 to |lines|
      invariant Scan(lines, START) == Scan(lines[i..], scanner.State())
    {
      assert lines[i..][0] == lines[i] && lines[i..][1..] == lines[i + 1..];
      scanner.Visit(lines[i]);
    }
    if scanner.contentTypeOverBudget {
      return Err(MimeHeadersTooLarge);
    }
    if scanner.tooManyBoundaries {
      return Err(TooManyMimeParts);
    }
    if scanner.overBudget {
      return Err(TooManyMimeParts);
    }
    return Ok(());
  }

  method PreflightRawMessage(raw: string) returns (r: Result<RawMessagePreflight>)
    ensures r == if |raw| > 52_428_800 then Err(RawMessageTooLarge)
                 else if FirstEmptyLine(Lines(raw)) > 1_048_576 then Err(MimeHeadersTooLarge)
                 else match PartCountVerdict(raw)
                      case Err(e) => Err(e)
                      case Ok(_) => Ok(RawMessagePreflight(|raw|, FirstEmptyLine(Lines(raw))))
  {
    hide PartCountVerdict, Lines, FirstEmptyLine;
    if |raw| > MAX_RAW_MESSAGE_BYTES {
      return Err(RawMessageTooLarge);
    }
    var headerBytes := OuterHeaderLen(raw);
    var header := ValidateHeaderBytes(headerBytes);
    if header.Err? {
      return Err(header.error);
    }
    var parts := PreflightMimePartCount(raw);
    if parts.Err? {
      return Err(parts.error);
    }
    return Ok(RawMessagePreflight(|raw|, headerBytes));
  }

  // ---------------------------------------------------------------- MIME trees

  /** A header field: its first line and its folded continuation lines. */
  datatype Field = Field(first: string, folds: seq<string>)

  datatype BodyPart = BodyPart(padding: string, entity: Entity)

  datatype Entity =
    | Leaf(fields: seq<Field>, body: seq<string>)
    | Multipart(fields: seq<Field>, boundary: string, preamble: seq<string>, parts: seq<BodyPart>,
                closePadding: string, epilogue: seq<string>)

  /** How many parts the tree has, the root included: what the parser reports. */
  function PartCount(e: Entity): (n: nat)
    ensures n >= 1
    decreases e
  {
    match e
    case Leaf(_, _) => 1
    case Multipart(_, _, _, parts, _, _) => 1 + PartsCount(parts)
  }

  function PartsCount(parts: seq<BodyPart>): (n: nat)
    ensures parts != [] ==> n >= 1
    decreases parts
  {
    if parts == [] then 0 else PartCount(parts[0].entity) + PartsCount(parts[1..])
  }

  function Max(a: nat, b: nat): nat {
    if a < b then b else a
  }

  /** Multipart nesting: zero for a leaf. */
  function Depth(e: Entity): (n: nat)
    decreases e
  {
    match e
    case Leaf(_, _) => 0
    case Multipart(_, _, _, parts, _, _) => 1 + PartsDepth(parts)
  }

  function PartsDepth(parts: seq<BodyPart>): (n: nat)
    decreases parts
  {
    if parts == [] then 0 else Max(Depth(parts[0].entity), PartsDepth(parts[1..]))
  }

  function FieldLines(fields: seq<Field>): seq<string> {
    if fields == [] then [] else [fields[0].first] + (fields[0].folds + FieldLines(fields[1..]))
  }

  function OpenLine(boundary: string, padding: string): string {
    "--" + (boundary + padding)
  }

  function CloseLine(boundary: string, padding: string): string {
    "--" + ((boundary + "--") + padding)
  }

  /** The lines of a rendered entity: header fields, the blank line, the body. */
  function EntityLines(e: Entity): seq<string>
    decreases e
  {
    match e
    case Leaf(fields, body) => (FieldLines(fields) + [""]) + body
    case Multipart(fields, b, preamble, parts, pad, epilogue) =>
      (FieldLines(fields) + [""]) + (preamble + (PartsLines(b, parts) + ([CloseLine(b, pad)] + epilogue)))
  }

  function PartsLines(b: string, parts: seq<BodyPart>): seq<string>
    decreases parts
  {
    if parts == [] then []
    else [OpenLine(b, parts[0].padding)] + (EntityLines(parts[0].entity) + PartsLines(b, parts[1..]))
  }

  /** The whole message, every line ended the same way. */
  function Render(lines: seq<string>, ending: string): string {
    if lines == [] then "" else lines[0] + ending + Render(lines[1..], ending)
  }

  // ---------------------------------------------------------------- which trees

  function UnfoldFrom(text: string, folds: seq<string>): string
    decreases folds
  {
    if folds == [] then text else UnfoldFrom(text + (" " + Trim(folds[0])), folds[1..])
  }

  /** The logical line of a field, continuations joined by single spaces. */
  function Unfolded(f: Field): string {
    UnfoldFrom(f.first, f.folds)
  }

  /** The field's name is Content-Type, in letters of either case. */
  predicate NamesContentType(line: string) {
    |line| >= 13 && InEitherCase(line[..13], "content-type:", "CONTENT-TYPE:")
  }

  predicate IsFold(line: string) {
    line != "" && (line[0] == ' ' || line[0] == '\t')
  }

  predicate GoodField(f: Field) {
    && f.first != "" && !IsFold(f.first)
    && (forall i :: 0 <= i < |f.folds| ==> IsFold(f.folds[i]))
    && (NamesContentType(f.first) && f.folds != [] ==> |Unfolded(f)| <= 1_048_576)
  }

  function DeclaredBy(contentType: string): (r: seq<string>) {
    match Declares(contentType)
    case Some(b) => [b]
    case None => []
  }

  function PendingText(f: Field): string {
    if NamesContentType(f.first) then Unfolded(f) else ""
  }

  /** Every boundary the header fields declare, in order. */
  function Declared(fields: seq<Field>): (r: seq<string>) {
    if fields == [] then [] else DeclaredBy(PendingText(fields[0])) + Declared(fields[1..])
  }

  /** A body line that no live boundary could take for a delimiter. */
  predicate Quiet(line: string, live: set<string>) {
    forall b :: b in live ==> !ReadsAs(line, "--" + b) && !ReadsAs(line, "--" + (b + "--"))
  }

  /** `line` is `text`, but for blanks at its end. */
  predicate ReadsAs(line: string, text: string) {
    |text| <= |line| && line[..|text|] == text && AllBlank(line[|text|..])
  }

  predicate AllQuiet(lines: seq<string>, live: set<string>) {
    forall i :: 0 <= i < |lines| ==> Quiet(lines[i], live)
  }

  predicate GoodFields(fields: seq<Field>) {
    forall i :: 0 <= i < |fields| ==> GoodField(fields[i])
  }

  /** A boundary usable below the given live ones: it does not end in a blank (section 5.1.1
      of RFC 2046), and neither it nor its closing form is taken. */
  predicate GoodBoundary(b: string, live: set<string>) {
    && b != "" && b[|b| - 1] != ' ' && b[|b| - 1] != '\t'
    && b !in live && b + "--" !in live
  }

  /** A tree the RFC lets a composer render below the live boundaries. */
  predicate Renderable(e: Entity, live: set<string>)
    decreases e
  {
    match e
    case Leaf(fields, body) =>
      GoodFields(fields) && Declared(fields) == [] && AllQuiet(body, live)
    case Multipart(fields, b, preamble, parts, pad, epilogue) =>
      && GoodFields(fields) && Declared(fields) == [b]
      && GoodBoundary(b, live)
      && AllQuiet(preamble, live + {b})
      && parts != [] && PartsRenderable(parts, live + {b})
      && AllBlank(pad)
      && AllQuiet(epilogue, live)
  }

  predicate PartsRenderable(parts: seq<BodyPart>, live: set<string>)
    decreases parts
  {
    || parts == []
    || (AllBlank(parts[0].padding) && Renderable(parts[0].entity, live) && PartsRenderable(parts[1..], live))
  }

  // ---------------------------------------------------------------- runs

  lemma {:induction false} ScanOfAppend(a: seq<string>, b: seq<string>, st: ScanState)
    ensures Scan(a + b, st) == Scan(b, Scan(a, st))
  {
    hide Step;
    if a == [] {
      assert a + b == b;
    } else {
      assert (a + b)[1..] == a[1..] + b;
      ScanOfAppend(a[1..], b, Step(st, a[0]));
    }
  }

  lemma {:induction false} ScanStopped(lines: seq<string>, st: ScanState)
    requires st.Stopped()
    ensures Scan(lines, st) == st
  {
    if lines != [] {
      ScanStopped(lines[1..], st);
    }
  }

  lemma ScanOne(line: string, st: ScanState)
    ensures Scan([line], st) == Step(st, line)
  {
    hide Step;
    assert [line][1..] == [];
  }

  /** The state between two lines of a body: nothing pending. */
  function Clean(live: set<string>, inHeaders: bool, n: nat): ScanState {
    ScanState(live, false, inHeaders, "", false, false, n, false)
  }

  predicate Rejected(st: ScanState) {
    !st.contentTypeOverBudget && (st.tooManyBoundaries || st.overBudget)
  }

  // -- headers

  predicate Ready(st: ScanState) {
    !st.Stopped() && st.inHeaders && (st.collecting || st.contentType == "")
  }

  lemma NothingDeclared()
    ensures Declares("") == None
  {
  }

  lemma {:induction false} UnfoldGrows(text: string, folds: seq<string>)
    ensures |UnfoldFrom(text, folds)| >= |text|
    decreases folds
  {
    if folds != [] {
      UnfoldGrows(text + (" " + Trim(folds[0])), folds[1..]);
    }
  }

  lemma ContentTypeIff(line: string)
    ensures IsContentType(line) <==> NamesContentType(line)
    ensures StartsBlank(line) <==> IsFold(line)
    ensures StartsBlank(line) ==> !IsContentType(line)
  {
    hide EqualsIgnoreCase;
    if |line| >= 13 {
      EitherCaseIff(line[..13], "content-type:", "CONTENT-TYPE:");
      assert line[..13][0] == line[0];
    }
  }

  lemma {:induction false} ScanFolds(folds: seq<string>, st: ScanState)
    requires Ready(st)
    requires forall i :: 0 <= i < |folds| ==> IsFold(folds[i])
    requires st.collecting && folds != [] ==> |UnfoldFrom(st.contentType, folds)| <= 1_048_576
    ensures Scan(folds, st) == if st.collecting then st.(contentType := UnfoldFrom(st.contentType, folds)) else st
  {
    hide IsContentType, Declares;
    if folds != [] {
      ContentTypeIff(folds[0]);
      if st.collecting {
        var text := st.contentType + (" " + Trim(folds[0]));
        UnfoldGrows(text, folds[1..]);
        ScanFolds(folds[1..], st.(contentType := text));
      } else {
        NothingDeclared();
        ScanFolds(folds[1..], st);
      }
    }
  }

  /** Reading one field leaves that field pending. */
  lemma ScanField(f: Field, st: ScanState)
    requires Ready(st) && GoodField(f)
    ensures Step(st, f.first) == Record(st).(collecting := IsContentType(f.first),
                                             contentType := if IsContentType(f.first) then f.first else "")
    ensures !Record(st).Stopped() ==>
      Scan([f.first] + f.folds, st) == Record(st).(collecting := IsContentType(f.first), contentType := PendingText(f))
  {
    hide IsContentType, Declares;
    ContentTypeIff(f.first);
    var r := Step(st, f.first);
    assert ([f.first] + f.folds)[1..] == f.folds;
    if !Record(st).Stopped() {
      ScanFolds(f.folds, r);
    }
  }

  /** A header block and its blank line, with at most one boundary declared in it. */
  lemma {:induction false} ScanHeaderBlock(fields: seq<Field>, st: ScanState)
    requires Ready(st) && GoodFields(fields)
    requires |DeclaredBy(st.contentType) + Declared(fields)| <= 1
    ensures var declared := DeclaredBy(st.contentType) + Declared(fields);
            var all := st.boundaries + (set b | b in declared);
            var r := Scan(FieldLines(fields) + [""], st);
            if declared != [] && |all| >= MAX_MIME_PARTS then Rejected(r)
            else r == st.(boundaries := all, inHeaders := false, collecting := false, contentType := "")
  {
    hide Declares, IsContentType, Step;
    var declared := DeclaredBy(st.contentType) + Declared(fields);
    var all := st.boundaries + (set b | b in declared);
    RecordEffect(st);
    if fields == [] {
      assert FieldLines(fields) + [""] == [""];
      ScanOne("", st);
      assert Step(st, "") == Record(st).(collecting := false, inHeaders := false) by {
        StepAtBlankLine(st);
      }
      assert declared == DeclaredBy(st.contentType);
    } else {
      HeaderBlockSplits(fields, st);
      ContentTypeIff(fields[0].first);
      ScanField(fields[0], st);
      var next := Record(st).(collecting := IsContentType(fields[0].first), contentType := PendingText(fields[0]));
      if Record(st).Stopped() {
        var stopped := Step(st, fields[0].first);
        ScanStopped(fields[0].folds + (FieldLines(fields[1..]) + [""]), stopped);
        assert declared == DeclaredBy(st.contentType) + Declared(fields);
        SingleDeclared(DeclaredBy(st.contentType), Declared(fields));
      } else {
        SplitDeclared(DeclaredBy(st.contentType), DeclaredBy(PendingText(fields[0])), Declared(fields[1..]),
                      st.boundaries);
        ScanHeaderBlock(fields[1..], next);
      }
    }
  }

  lemma StepAtBlankLine(st: ScanState)
    requires Ready(st)
    ensures Step(st, "") == Record(st).(collecting := false, inHeaders := false)
  {
  }

  lemma SingleDeclared(a: seq<string>, b: seq<string>)
    requires |a + b| <= 1 && a != []
    ensures a + b == a
  {
  }

  lemma SplitDeclared(a: seq<string>, b: seq<string>, c: seq<string>, boundaries: set<string>)
    requires |a + (b + c)| <= 1
    ensures |b + c| <= 1
    ensures boundaries + (set x | x in a + (b + c)) == (boundaries + (set x | x in a)) + (set x | x in b + c)
    ensures a != [] ==> b + c == []
    ensures a == [] ==> a + (b + c) == b + c
  {
  }

  lemma HeaderBlockSplits(fields: seq<Field>, st: ScanState)
    requires fields != []
    ensures var f, rest := fields[0], FieldLines(fields[1..]) + [""];
            && Scan(FieldLines(fields) + [""], st) == Scan(f.folds + rest, Step(st, f.first))
            && Scan(FieldLines(fields) + [""], st) == Scan(rest, Scan([f.first] + f.folds, st))
  {
    hide Step;
    var f, rest := fields[0], FieldLines(fields[1..]) + [""];
    var lines := FieldLines(fields) + [""];
    assert lines == [f.first] + (f.folds + rest);
    assert lines[1..] == f.folds + rest;
    assert lines == ([f.first] + f.folds) + rest;
    ScanOfAppend([f.first] + f.folds, rest, st);
  }

  lemma RecordEffect(st: ScanState)
    requires Ready(st)
    ensures var b := DeclaredBy(st.contentType);
            Record(st) == st.(contentType := "", boundaries := st.boundaries + (set x | x in b),
                              tooManyBoundaries := b != [] && |st.boundaries + (set x | x in b)| >= MAX_MIME_PARTS)
  {
    hide Declares;
    match Declares(st.contentType) {
      case Some(b) => assert (set x | x in [b]) == {b};
      case None => assert st.boundaries + {} == st.boundaries;
    }
  }

  /** The header of an entity, from a clean state. */
  lemma ScanEntityHeader(fields: seq<Field>, live: set<string>, n: nat)
    requires GoodFields(fields) && |Declared(fields)| <= 1
    ensures var r := Scan(FieldLines(fields) + [""], Clean(live, true, n));
            if Declared(fields) == [] then r == Clean(live, false, n)
            else if |live + {Declared(fields)[0]}| >= MAX_MIME_PARTS then Rejected(r)
            else r == Clean(live + {Declared(fields)[0]}, false, n)
  {
    hide Declares, Step, Scan, FieldLines, GoodFields, Declared, Rejected;
    NothingDeclared();
    var st, d := Clean(live, true, n), Declared(fields);
    assert DeclaredBy(st.contentType) + d == d;
    DeclaredSet(d);
    ScanHeaderBlock(fields, st);
    assert live + {} == live;
  }

  lemma DeclaredSet(d: seq<string>)
    requires |d| <= 1
    ensures (set b | b in d) == if d == [] then {} else {d[0]}
  {
  }

  // -- bodies

  lemma {:induction false} TrimBlankEndOf(a: string, pad: string)
    requires AllBlank(pad)
    requires a != "" && a[|a| - 1] != ' ' && a[|a| - 1] != '\t'
    ensures TrimBlankEnd(a + pad) == a
  {
    if pad == "" {
      assert a + pad == a;
    } else {
      assert (a + pad)[..|a + pad| - 1] == a + pad[..|pad| - 1];
      TrimBlankEndOf(a, pad[..|pad| - 1]);
    }
  }

  lemma {:induction false} TrimmedReadsAs(line: string)
    ensures ReadsAs(line, TrimBlankEnd(line))
  {
    if line != "" && IsBlank(line[|line| - 1]) {
      TrimmedReadsAs(line[..|line| - 1]);
    }
  }

  lemma QuietLineIsIgnored(line: string, live: set<string>, n: nat)
    requires Quiet(line, live)
    ensures Step(Clean(live, false, n), line) == Clean(live, false, n)
  {
    hide TrimBlankEnd, ReadsAs;
    var t := TrimBlankEnd(line);
    TrimmedReadsAs(line);
    if StartsWith(t, "--") {
      var c := t[2..];
      assert t == "--" + c;
      if EndsWith(c, "--") {
        var d := c[..|c| - 2];
        assert c == d + "--";
        assert live - {d} == live;
      }
    }
  }

  lemma {:induction false} ScanQuiet(lines: seq<string>, live: set<string>, n: nat)
    requires AllQuiet(lines, live)
    ensures Scan(lines, Clean(live, false, n)) == Clean(live, false, n)
  {
    hide Step, Quiet;
    if lines != [] {
      QuietLineIsIgnored(lines[0], live, n);
      ScanQuiet(lines[1..], live, n);
    }
  }

  lemma OpeningDelimiter(b: string, pad: string, live: set<string>, n: nat)
    requires b in live && b != "" && b[|b| - 1] != ' ' && b[|b| - 1] != '\t' && AllBlank(pad)
    ensures var r := Step(Clean(live, false, n), OpenLine(b, pad));
            if n + 1 >= MAX_MIME_PARTS then Rejected(r) else r == Clean(live, true, n + 1)
  {
    hide TrimBlankEnd;
    assert OpenLine(b, pad) == ("--" + b) + pad;
    TrimBlankEndOf("--" + b, pad);
    assert ("--" + b)[2..] == b;
  }

  lemma ClosingDelimiter(b: string, pad: string, live: set<string>, n: nat)
    requires GoodBoundary(b, live) && AllBlank(pad)
    ensures Step(Clean(live + {b}, false, n), CloseLine(b, pad)) == Clean(live, false, n)
  {
    hide TrimBlankEnd;
    assert CloseLine(b, pad) == ("--" + (b + "--")) + pad;
    TrimBlankEndOf("--" + (b + "--"), pad);
    var c := b + "--";
    assert ("--" + (b + "--"))[2..] == c;
    assert c[|c| - 2..] == "--" && c[..|c| - 2] == b;
    assert |c| != |b|;
    assert live + {b} - {b} == live;
  }

  // -- trees

  /** The state reached after reading `k` more parts' worth of delimiters. */
  predicate Counted(r: ScanState, live: set<string>, total: nat) {
    if total >= MAX_MIME_PARTS then Rejected(r) else r == Clean(live, false, total)
  }

  /** The main induction: reading an entity below the live boundaries counts its inner parts
      exactly, restores the live boundaries, and rejects exactly when the count is reached.
      Every live boundary has already opened at least one part, so the separate limit on live
      boundaries never fires first. */
  lemma {:induction false} ScanEntity(e: Entity, live: set<string>, n: nat)
    requires Renderable(e, live) && |live| <= n < MAX_MIME_PARTS
    ensures Counted(Scan(EntityLines(e), Clean(live, true, n)), live, n + PartCount(e) - 1)
    decreases e, 1
  {
    hide Scan, Step, FieldLines, GoodFields, Declared, AllQuiet;
    match e {
      case Leaf(fields, body) =>
        ScanOfAppend(FieldLines(fields) + [""], body, Clean(live, true, n));
        ScanEntityHeader(fields, live, n);
        ScanQuiet(body, live, n);
      case Multipart(fields, b, preamble, parts, pad, epilogue) =>
        var rest := preamble + (PartsLines(b, parts) + ([CloseLine(b, pad)] + epilogue));
        ScanOfAppend(FieldLines(fields) + [""], rest, Clean(live, true, n));
        ScanEntityHeader(fields, live, n);
        assert |live + {b}| == |live| + 1;
        if |live + {b}| >= MAX_MIME_PARTS {
          ScanStopped(rest, Scan(FieldLines(fields) + [""], Clean(live, true, n)));
        } else {
          ScanMultipartBody(e, live, n);
        }
    }
  }

  lemma {:induction false} ScanMultipartBody(e: Entity, live: set<string>, n: nat)
    requires e.Multipart? && Renderable(e, live) && |live| <= n < MAX_MIME_PARTS
    ensures Counted(Scan(e.preamble + (PartsLines(e.boundary, e.parts)
                                       + ([CloseLine(e.boundary, e.closePadding)] + e.epilogue)),
                         Clean(live + {e.boundary}, false, n)),
                    live, n + PartsCount(e.parts))
    decreases e, 0
  {
    hide Scan, Step, GoodFields, Declared, AllQuiet, CloseLine;
    var b, inner := e.boundary, live + {e.boundary};
    var close := [CloseLine(b, e.closePadding)] + e.epilogue;
    ScanOfAppend(e.preamble, PartsLines(b, e.parts) + close, Clean(inner, false, n));
    ScanQuiet(e.preamble, inner, n);
    ScanOfAppend(PartsLines(b, e.parts), close, Clean(inner, false, n));
    ScanParts(b, e.parts, inner, n);
    var total := n + PartsCount(e.parts);
    if total >= MAX_MIME_PARTS {
      ScanStopped(close, Scan(PartsLines(b, e.parts), Clean(inner, false, n)));
    } else {
      ScanOfAppend([CloseLine(b, e.closePadding)], e.epilogue, Clean(inner, false, total));
      ScanOne(CloseLine(b, e.closePadding), Clean(inner, false, total));
      ClosingDelimiter(b, e.closePadding, live, total);
      ScanQuiet(e.epilogue, live, total);
    }
  }

  lemma {:induction false} ScanParts(b: string, parts: seq<BodyPart>, live: set<string>, n: nat)
    requires PartsRenderable(parts, live)
    requires b in live && b != "" && b[|b| - 1] != ' ' && b[|b| - 1] != '\t'
    requires |live| <= n + 1 && n < MAX_MIME_PARTS
    ensures Counted(Scan(PartsLines(b, parts), Clean(live, false, n)), live, n + PartsCount(parts))
    decreases parts, 0
  {
    hide Step, Renderable, EntityLines, OpenLine;
    if parts == [] {
    } else {
      var p, rest := parts[0], PartsLines(b, parts[1..]);
      ScanOfAppend([OpenLine(b, p.padding)], EntityLines(p.entity) + rest, Clean(live, false, n));
      ScanOne(OpenLine(b, p.padding), Clean(live, false, n));
      OpeningDelimiter(b, p.padding, live, n);
      if n + 1 >= MAX_MIME_PARTS {
        ScanStopped(EntityLines(p.entity) + rest, Step(Clean(live, false, n), OpenLine(b, p.padding)));
      } else {
        ScanEntity(p.entity, live, n + 1);
        ScanOfAppend(EntityLines(p.entity), rest, Clean(live, true, n + 1));
        var m := n + PartCount(p.entity);
        if m >= MAX_MIME_PARTS {
          ScanStopped(rest, Scan(EntityLines(p.entity), Clean(live, true, n + 1)));
        } else {
          ScanParts(b, parts[1..], live, m);
        }
      }
    }
  }

  // ---------------------------------------------------------------- printed Content-Type fields

  lemma {:induction false} UnfoldKeepsStart(text: string, folds: seq<string>)
    ensures |UnfoldFrom(text, folds)| >= |text| && UnfoldFrom(text, folds)[..|text|] == text
    decreases folds
  {
    if folds != [] {
      var next := text + (" " + Trim(folds[0]));
      UnfoldKeepsStart(next, folds[1..]);
      assert UnfoldFrom(next, folds[1..])[..|next|][..|text|] == next[..|text|];
    }
  }

  /** A Content-Type field as a composer prints it, folded or not, declares exactly the boundary
      printed in it, in whatever case its three words are spelled, and none when it is not multipart;
      so `Declared` asks nothing of a tree but that its fields say what they mean. */
  lemma PrintedFieldDeclares(field: Field, h: Head, ps: seq<Parameter>)
    requires GoodShape(h) && GoodParameters(ps) && InEitherCase(h.field, "content-type", "CONTENT-TYPE")
    requires Unfolded(field) == PrintHead(h) + PrintAll(ps) && |field.first| > |h.field|
    ensures DeclaredBy(PendingText(field))
         == if !IsMultipart(h) then []
            else match DeclaredBoundary(ps)
                 case Some(b) => if b != "" && |b| <= 200 then [b] else []
                 case None => []
  {
    hide BoundaryOf, PrintAll, GoodShape, GoodParameters, DeclaredBoundary, IsMultipart, UnfoldFrom;
    BoundaryOfPrinted(h, ps, "");
    assert PrintAll(ps) + "" == PrintAll(ps);
    UnfoldKeepsStart(field.first, field.folds);
    PrintedNamesContentType(h, PrintAll(ps));
    assert field.first[..13] == Unfolded(field)[..|field.first|][..13];
  }

  lemma PrintedNamesContentType(h: Head, rest: string)
    requires InEitherCase(h.field, "content-type", "CONTENT-TYPE")
    ensures NamesContentType(PrintHead(h) + rest)
  {
    var text := PrintHead(h) + rest;
    assert text[..13] == h.field + ":";
    forall i | 0 <= i < 13
      ensures text[..13][i] == "content-type:"[i] || text[..13][i] == "CONTENT-TYPE:"[i]
    {
      if i < 12 {
        assert text[..13][i] == h.field[i];
        assert "content-type:"[i] == "content-type"[i] && "CONTENT-TYPE:"[i] == "CONTENT-TYPE"[i];
      }
    }
  }

  // ---------------------------------------------------------------- the theorem

  lemma {:induction false} LinesOfRender(lines: seq<string>, ending: string)
    requires ending == "\n" || ending == "\r" || ending == "\r\n"
    requires forall i :: 0 <= i < |lines| ==> BreakFree(lines[i])
    ensures Texts(Lines(Render(lines, ending))) == lines
    ensures Render(lines, ending) != "" && ending[0] == '\r' ==> !StartsWithLf(Render(lines, ending))
  {
    hide Lines;
    if lines == [] {
      LastLineAt("", 0);
      assert ""[0..] == "";
    } else {
      LinesOfRender(lines[1..], ending);
      var first, rest := PhysicalLine(lines[0], ending), Render(lines[1..], ending);
      LinesOfLine(first, rest);
      assert ([first] + Lines(rest))[1..] == Lines(rest);
      assert Render(lines, ending)[0] == if lines[0] == "" then ending[0] else lines[0][0];
    }
  }

  /** For every MIME tree and every message with its lines, whatever ends each of them, the one-pass
      scan counts exactly the parts below the root, and rejects exactly the trees that the
      structural limit on the part count rejects. */
  lemma PreflightMatchesStructure(e: Entity, raw: string)
    requires Renderable(e, {}) && Texts(Lines(raw)) == EntityLines(e)
    ensures PartCountVerdict(raw) == if PartCount(e) > 1_000 then Err(TooManyMimeParts) else Ok(())
    ensures PartCountVerdict(raw) == Err(TooManyMimeParts)
       <==> ValidateStructure(PartCount(e), Depth(e)) == Err(TooManyMimeParts)
    ensures PartCount(e) <= 1_000 ==>
              Scan(Texts(Lines(raw)), START).openingDelimiters == PartCount(e) - 1
  {
    hide Scan, EntityLines, Renderable, PartCount, Depth, Lines;
    ScanEntity(e, {}, 0);
    assert START == Clean({}, true, 0);
  }

  /** In particular for the tree rendered with one of the three line endings. */
  lemma RenderedTreeMatches(e: Entity, ending: string)
    requires Renderable(e, {})
    requires ending == "\n" || ending == "\r" || ending == "\r\n"
    requires forall i :: 0 <= i < |EntityLines(e)| ==> BreakFree(EntityLines(e)[i])
    ensures PartCountVerdict(Render(EntityLines(e), ending))
         == if PartCount(e) > 1_000 then Err(TooManyMimeParts) else Ok(())
  {
    hide Scan, EntityLines, Renderable, PartCount, Depth, Render, Lines;
    LinesOfRender(EntityLines(e), ending);
    PreflightMatchesStructure(e, Render(EntityLines(e), ending));
  }

  /** The other limits: the parser's counts are accepted up to 1000 parts and 64 levels, and the number
      of parts is looked at first. */
  lemma StructureLimits(e: Entity)
    ensures ValidateStructure(PartCount(e), Depth(e)).Ok? <==> PartCount(e) <= 1_000 && Depth(e) <= 64
    ensures ValidateStructure(PartCount(e), Depth(e)) == Err(MultipartNestingTooDeep)
       <==> PartCount(e) <= 1_000 && Depth(e) > 64
  {
  }

  // -- a storm

  const STORM_HEADER := "Content-Type: multipart/mixed; boundary=x"

  /** `n` small parts under that header. */
  function StormParts(n: nat): seq<BodyPart> {
    if n == 0 then [] else [BodyPart("", Leaf([], ["a"]))] + StormParts(n - 1)
  }

  function Storm(n: nat): seq<string> {
    [STORM_HEADER, ""] + (StormLines(n) + ["--x--"])
  }

  function StormLines(n: nat): seq<string> {
    if n == 0 then [] else ["--x", "", "a"] + StormLines(n - 1)
  }

  lemma {:induction false} StormIsRendered(n: nat)
    ensures PartsLines("x", StormParts(n)) == StormLines(n)
    ensures PartsCount(StormParts(n)) == n
    ensures PartsRenderable(StormParts(n), {"x"})
  {
    if n > 0 {
      StormIsRendered(n - 1);
      var parts := StormParts(n);
      assert parts[1..] == StormParts(n - 1);
      assert FieldLines([]) + [""] == [""] && [""] + ["a"] == ["", "a"];
      assert OpenLine("x", "") == "--x";
      assert EntityLines(Leaf([], ["a"])) == ["", "a"];
      assert ["--x"] + (["", "a"] + StormLines(n - 1)) == ["--x", "", "a"] + StormLines(n - 1);
      assert Renderable(Leaf([], ["a"]), {"x"});
    }
  }

  const STORM_HEAD := Head("Content-Type", " ", "multipart", "", "", "mixed", "")
  const STORM_PARAMETER := Parameter(" ", "boundary", "", "", Token("x"), "")

  lemma SmallLettersArePlain(word: string)
    requires forall i :: 0 <= i < |word| ==> 'a' <= word[i] <= 'z'
    ensures AllPlain(word)
  {
  }

  lemma StormHeaderIsGood()
    ensures GoodShape(STORM_HEAD) && IsMultipart(STORM_HEAD)
    ensures InEitherCase(STORM_HEAD.field, "content-type", "CONTENT-TYPE")
  {
    hide AllPlain;
    SmallLettersArePlain("multipart");
    SmallLettersArePlain("mixed");
  }

  lemma StormParameterIsGood()
    ensures GoodParameters([STORM_PARAMETER]) && DeclaredBoundary([STORM_PARAMETER]) == Some("x")
  {
    hide AllPlain;
    SmallLettersArePlain("boundary");
  }

  lemma StormHeaderIsPrinted()
    ensures PrintHead(STORM_HEAD) + PrintAll([STORM_PARAMETER]) == STORM_HEADER
  {
    assert PrintHead(STORM_HEAD) == "Content-Type: multipart/mixed";
    assert PrintBody(STORM_PARAMETER) == " boundary=x";
    hide PrintHead, PrintBody;
    assert [STORM_PARAMETER][1..] == [];
    assert PrintAll([STORM_PARAMETER]) == ";" + (" boundary=x" + "");
  }

  /** The smallest storm: an ordinary header spelled as usual and a thousand small parts are rejected,
      fewer are not. */
  lemma StormIsRejected(n: nat, raw: string)
    requires n > 0 && Texts(Lines(raw)) == Storm(n)
    ensures PartCountVerdict(raw) == if n >= 1_000 then Err(TooManyMimeParts) else Ok(())
  {
    hide Lines, PartCountVerdict, Scan, PartsRenderable, StormLines, StormParts, PartsLines, PartsCount, Declares;
    var field := Field(STORM_HEADER, []);
    var e := Multipart([field], "x", [], StormParts(n), "", []);
    StormIsRendered(n);
    StormHeaderIsGood();
    StormParameterIsGood();
    StormHeaderIsPrinted();
    PrintedFieldDeclares(field, STORM_HEAD, [STORM_PARAMETER]);
    StormFieldIsGood();
    StormEntity(n, field, e);
    PreflightMatchesStructure(e, raw);
  }

  lemma StormFieldIsGood()
    ensures GoodField(Field(STORM_HEADER, []))
  {
  }

  lemma StormEntity(n: nat, field: Field, e: Entity)
    requires n > 0 && e == Multipart([field], "x", [], StormParts(n), "", []) && field == Field(STORM_HEADER, [])
    requires PartsLines("x", StormParts(n)) == StormLines(n) && PartsCount(StormParts(n)) == n
    requires PartsRenderable(StormParts(n), {"x"})
    requires GoodField(field) && DeclaredBy(PendingText(field)) == ["x"]
    ensures Renderable(e, {}) && EntityLines(e) == Storm(n) && PartCount(e) == n + 1
  {
    hide PartsRenderable, StormLines, PartsLines, PartsCount, GoodField, PendingText, DeclaredBy;
    assert Declared([field]) == ["x"] by {
      assert [field][1..] == [];
      assert ["x"] + [] == ["x"];
    }
    assert {} + {"x"} == {"x"};
    assert CloseLine("x", "") == "--x--";
    assert FieldLines([field]) == [STORM_HEADER] by {
      assert [field][1..] == [];
    }
    assert [STORM_HEADER] + [""] == [STORM_HEADER, ""];
    assert ["--x--"] + [] == ["--x--"] && [] + (StormLines(n) + ["--x--"]) == StormLines(n) + ["--x--"];
  }

  // -- a long header field

  lemma {:induction false} ScanLongFolds(folds: seq<string>, st: ScanState)
    requires Ready(st) && st.collecting && folds != []
    requires forall i :: 0 <= i < |folds| ==> IsFold(folds[i])
    requires |UnfoldFrom(st.contentType, folds)| > 1_048_576
    ensures Scan(folds, st).contentTypeOverBudget
  {
    hide IsContentType, Declares, Trim;
    ContentTypeIff(folds[0]);
    var text := st.contentType + (" " + Trim(folds[0]));
    if |text| <= 1_048_576 {
      ScanLongFolds(folds[1..], st.(contentType := text));
    } else {
      ScanStopped(folds[1..], Step(st, folds[0]));
    }
  }

  /** A folded Content-Type field that unfolds to more than a mebibyte is rejected for its headers,
      whatever follows. */
  lemma LongFieldIsRejected(f: Field, st: ScanState, later: seq<string>)
    requires Ready(st) && !Record(st).Stopped()
    requires NamesContentType(f.first) && f.folds != [] && forall i :: 0 <= i < |f.folds| ==> IsFold(f.folds[i])
    requires |Unfolded(f)| > 1_048_576
    ensures Verdict(Scan(([f.first] + f.folds) + later, st)) == Err(MimeHeadersTooLarge)
  {
    hide IsContentType, Declares, UnfoldFrom, NamesContentType;
    ContentTypeIff(f.first);
    ScanOfAppend([f.first] + f.folds, later, st);
    assert ([f.first] + f.folds)[1..] == f.folds;
    var r := Step(st, f.first);
    NotAFold(f.first);
    ScanLongFolds(f.folds, r);
    ScanStopped(later, Scan(f.folds, r));
  }

  lemma NotAFold(line: string)
    requires NamesContentType(line)
    ensures line != "" && !IsFold(line)
  {
    assert line[..13][0] == line[0];
  }

  // ---------------------------------------------------------------- the limits of the claim

  /** A boundary that ends in a blank is never matched, because delimiters are compared after
      their trailing blanks are removed: whatever else is live, no line counts for it. */
  lemma BlankEndedBoundaryNeverOpens(b: string, line: string, live: set<string>, n: nat)
    requires b != "" && (b[|b| - 1] == ' ' || b[|b| - 1] == '\t')
    ensures Step(Clean(live + {b}, false, n), line).openingDelimiters
         == Step(Clean(live - {b}, false, n), line).openingDelimiters
  {
    hide TrimBlankEnd;
    NeverTheCandidate(b, line);
  }

  lemma NeverTheCandidate(b: string, line: string)
    requires b != "" && (b[|b| - 1] == ' ' || b[|b| - 1] == '\t')
    ensures StartsWith(TrimBlankEnd(line), "--") ==> TrimBlankEnd(line)[2..] != b
  {
    hide TrimBlankEnd;
    var t := TrimBlankEnd(line);
    TrimBlankEndHasNone(line);
    if |t| > 2 {
      assert t[2..][|t| - 3] == t[|t| - 1];
    }
  }

  /** With no other boundary live, nothing after the header is counted. */
  lemma {:induction false} NothingOpens(b: string, lines: seq<string>, st: ScanState)
    requires b != "" && (b[|b| - 1] == ' ' || b[|b| - 1] == '\t')
    requires !st.Stopped() && !st.inHeaders && st.boundaries <= {b}
    ensures var r := Scan(lines, st); !r.Stopped() && r.openingDelimiters == st.openingDelimiters
  {
    hide TrimBlankEnd;
    if lines != [] {
      NeverTheCandidate(b, lines[0]);
      NothingOpens(b, lines[1..], Step(st, lines[0]));
    }
  }

  /** A whole message whose root boundary ends in a blank passes however many parts it has: none of
      them is counted. */
  lemma BlankEndedTreePasses(e: Entity, raw: string)
    requires e.Multipart? && GoodFields(e.fields) && Declared(e.fields) == [e.boundary]
    requires e.boundary != "" && (e.boundary[|e.boundary| - 1] == ' ' || e.boundary[|e.boundary| - 1] == '\t')
    requires Texts(Lines(raw)) == EntityLines(e)
    ensures PartCountVerdict(raw) == Ok(())
    ensures Scan(Texts(Lines(raw)), START).openingDelimiters == 0
  {
    hide Scan, Step, GoodFields, Declared, FieldLines, PartsLines, CloseLine, Clean, Lines;
    var b := e.boundary;
    var rest := e.preamble + (PartsLines(b, e.parts) + ([CloseLine(b, e.closePadding)] + e.epilogue));
    ScanOfAppend(FieldLines(e.fields) + [""], rest, START);
    StartIsClean();
    ScanEntityHeader(e.fields, {}, 0);
    assert {} + {b} == {b};
    CleanFacts({b}, 0);
    NothingOpens(b, rest, Clean({b}, false, 0));
    PassesUnstopped(Scan(rest, Clean({b}, false, 0)));
  }

  lemma StartIsClean()
    ensures START == Clean({}, true, 0)
  {
  }

  lemma CleanFacts(live: set<string>, n: nat)
    ensures var st := Clean(live, false, n);
            !st.Stopped() && !st.inHeaders && st.boundaries == live && st.openingDelimiters == n
  {
  }

  lemma PassesUnstopped(st: ScanState)
    requires !st.Stopped()
    ensures Verdict(st) == Ok(())
  {
  }

  lemma {:induction false} TrimBlankEndHasNone(s: string)
    ensures var t := TrimBlankEnd(s); t == "" || !IsBlank(t[|t| - 1])
  {
    if s != "" && IsBlank(s[|s| - 1]) {
      TrimBlankEndHasNone(s[..|s| - 1]);
    }
  }

  /** Until its blank line a part is all header: delimiters that follow a part without one
      are read as header lines, and however many there are, none is counted. */
  lemma {:induction false} MissingBlankLineHidesDelimiters(lines: seq<string>, st: ScanState)
    requires st.inHeaders
    requires "" !in lines
    ensures Scan(lines, st).openingDelimiters == st.openingDelimiters
    ensures Scan(lines, st).inHeaders
  {
    hide Declares, IsContentType;
    if lines != [] {
      assert lines[0] in lines;
      MissingBlankLineHidesDelimiters(lines[1..], Step(st, lines[0]));
    }
  }
}
