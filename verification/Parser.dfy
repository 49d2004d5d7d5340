/**
  The parser's pass over classified lines: a stack of frames records, for each
  open block, the current branch head and the heads tried before it, and each
  packet line is stored with the predicate text these frames add up to.
 */
module Parser {
  import opened Options
  import opened Text
  import opened Predicate
  import opened PredicateProofs

  /** A line after comment stripping, by what the recognisers make of it. */
  datatype Line =
    | If(text: string)
    | Ifdef(name: string)
    | Ifndef(name: string)
    | Elif(text: string)
    | Else
    | Endif
    | Packet(id: int, length: int)
    | OutOfRangePacket
    | SymbolicPacket
    | Other

  datatype Entry = Entry(id: int, name: string, length: int, minVersion: int, condition: string)

  datatype Frame = Frame(condition: string, history: seq<string>)

  datatype Stats = Stats(entries: nat, symbolic: nat, ifBlocks: nat)

  datatype Error = InvalidPredicate | ElifWithoutIf | ElseWithoutIf | EndifWithoutIf | Unclosed(blocks: nat)

  datatype Result = Ok(entries: seq<Entry>) | Err(error: Error)

  // ----- the recorded predicate -----

  /** The negated earlier heads of a frame; an empty head leaves nothing. */
  function HistoryParts(history: seq<string>): seq<string> {
    if history == [] then []
    else if history[0] == "" then HistoryParts(history[1..])
    else [Negated(history[0])] + HistoryParts(history[1..])
  }

  function FrameParts(f: Frame): seq<string> {
    HistoryParts(f.history) + if f.condition == "" then [] else [f.condition]
  }

  function Parts(stack: seq<Frame>): seq<string> {
    if stack == [] then [] else FrameParts(stack[0]) + Parts(stack[1..])
  }

  /** The predicate text recorded for an entry under these frames; "" means always. */
  function ActivePredicate(stack: seq<Frame>): string {
    Join(Parts(stack), AND)
  }

  /** The double loop that collects the parts. */
  method BuildActivePredicate(stack: seq<Frame>) returns (p: string)
    ensures p == ActivePredicate(stack)
  {
    var parts: seq<string> := [];
    var i := 0;
    CollectNone(stack);
    hide HistoryParts, Parts, Join, Collected;
    while i < |stack|
      invariant 0 <= i <= |stack|
      invariant Collected(parts, stack, i)
    {
      var f := stack[i];
      ghost var before := parts;
      parts := AppendHistory(f.history, parts);
      if f.condition != "" {
        parts := parts + [f.condition];
      }
      CollectFrame(before, parts, stack, i);
      i := i + 1;
    }
    CollectAll(parts, stack, i);
    p := Join(parts, AND);
  }

  /** Parts collected so far and parts to come. */
  ghost predicate Collected(parts: seq<string>, stack: seq<Frame>, i: nat)
    requires i <= |stack|
  {
    parts + Parts(stack[i..]) == Parts(stack)
  }

  lemma CollectNone(stack: seq<Frame>)
    ensures Collected([], stack, 0)
  {
    assert stack[0..] == stack;
  }

  lemma CollectFrame(before: seq<string>, parts: seq<string>, stack: seq<Frame>, i: nat)
    requires i < |stack| && Collected(before, stack, i)
    requires var h := before + HistoryParts(stack[i].history);
      parts == if stack[i].condition == "" then h else h + [stack[i].condition]
    ensures Collected(parts, stack, i + 1)
  {
    assert stack[i..][1..] == stack[i + 1..];
    var rest := Parts(stack[i + 1..]);
    assert before + (FrameParts(stack[i]) + rest) == parts + rest;
  }

  lemma CollectAll(parts: seq<string>, stack: seq<Frame>, i: nat)
    requires i == |stack| && Collected(parts, stack, i)
    ensures Join(parts, AND) == ActivePredicate(stack)
  {
    assert stack[i..] == [] && parts + [] == parts;
  }

  method AppendHistory(history: seq<string>, before: seq<string>) returns (parts: seq<string>)
    ensures parts == before + HistoryParts(history)
  {
    parts := before;
    var j := 0;
    assert history[0..] == history;
    while j < |history|
      invariant 0 <= j <= |history|
      invariant parts + HistoryParts(history[j..]) == before + HistoryParts(history)
    {
      assert history[j..][1..] == history[j + 1..];
      var h := history[j];
      if h != "" {
        assert parts + ([Negated(h)] + HistoryParts(history[j + 1..])) == (parts + [Negated(h)]) + HistoryParts(history[j + 1..]);
        parts := parts + ["!(" + h + ")"];
      }
      j := j + 1;
    }
    assert history[j..] == [] && parts + [] == parts;
  }

  // ----- version thresholds -----

  /** The numbers after `>=`, in order: what the unanchored pattern finds. */
  function Thresholds(s: string): seq<string>
    decreases |s|
  {
    if |s| < 2 then []
    else if s[0] == '>' && s[1] == '=' then
      var rest := SkipSpaces(s[2..]);
      match LeadingNumber(rest)
      case Some(found) => if |found.1| < |s| then [found.0] + Thresholds(found.1) else []
      case None => Thresholds(s[1..])
    else Thresholds(s[1..])
  }

  /** The least number that fits, if any. */
  function Least(numbers: seq<string>): Option<int> {
    if numbers == [] then None
    else
      match (Atoi(numbers[0]), Least(numbers[1..]))
      case (None, m) => m
      case (Some(v), None) => Some(v)
      case (Some(v), Some(m)) => Some(if v < m then v else m)
  }

  function MinVersionFor(text: string): int {
    match Least(Thresholds(text))
    case Some(v) => v
    case None => 0
  }

  /** The loop over the matches. */
  method MinVersion(text: string) returns (v: int)
    ensures v == MinVersionFor(text)
  {
    if text == "" {
      return 0;
    }
    var numbers := Thresholds(text);
    var threshold: Option<int> := None;
    var i := 0;
    while i < |numbers|
      invariant 0 <= i <= |numbers|
      invariant Least(numbers) == Lesser(threshold, Least(numbers[i..]))
    {
      assert numbers[i..][1..] == numbers[i + 1..];
      match Atoi(numbers[i]) {
        case Some(n) =>
          if threshold == None || n < threshold.value {
            threshold := Some(n);
          }
        case None =>
      }
      i := i + 1;
    }
    assert numbers[i..] == [];
    match threshold
    case Some(n) => return n;
    case None => return 0;
  }

  function Lesser(a: Option<int>, b: Option<int>): Option<int> {
    match (a, b)
    case (None, _) => b
    case (_, None) => a
    case (Some(x), Some(y)) => Some(if x <= y then x else y)
  }

  lemma {:induction false} LeastIsMinimum(numbers: seq<string>)
    ensures Least(numbers) == None <==> forall i :: 0 <= i < |numbers| ==> Atoi(numbers[i]) == None
    ensures Least(numbers).Some? ==>
      && (exists i :: 0 <= i < |numbers| && Atoi(numbers[i]) == Least(numbers))
      && (forall i :: 0 <= i < |numbers| && Atoi(numbers[i]).Some? ==> Least(numbers).value <= Atoi(numbers[i]).value)
  {
    if numbers != [] {
      LeastIsMinimum(numbers[1..]);
      assert forall i :: 1 <= i < |numbers| ==> numbers[i] == numbers[1..][i - 1];
      if Least(numbers).Some? && Atoi(numbers[0]) != Least(numbers) {
        var j :| 0 <= j < |numbers[1..]| && Atoi(numbers[1..][j]) == Least(numbers[1..]);
        assert Atoi(numbers[j + 1]) == Least(numbers);
      }
    }
  }

  /** `m` is the least of the numbers that fit 64 bits, 0 when none does. */
  ghost predicate LeastNumber(m: int, numbers: seq<string>) {
    if forall n :: n in numbers ==> Atoi(n) == None then m == 0
    else (exists n :: n in numbers && Atoi(n) == Some(m)) && forall n :: n in numbers && Atoi(n).Some? ==> m <= Atoi(n).value
  }

  lemma MinimumOfText(text: string)
    ensures LeastNumber(MinVersionFor(text), Thresholds(text))
  {
    var numbers := Thresholds(text);
    hide Thresholds, Atoi;
    LeastIsMinimum(numbers);
    assert forall n :: n in numbers ==> exists i :: 0 <= i < |numbers| && numbers[i] == n;
    hide Least;
  }

  // ----- one pass -----

  function HexDigit(d: int): char {
    if 0 <= d < 10 then '0' + d as char else if 10 <= d < 16 then 'a' + (d - 10) as char else '?'
  }

  /** The name derived from a command ID, as in 0x0064. */
  function Name(id: int): string {
    "0x" + [HexDigit(id / 4096 % 16), HexDigit(id / 256 % 16), HexDigit(id / 16 % 16), HexDigit(id % 16)]
  }

  function MakeEntry(line: Line, stack: seq<Frame>): Entry
    requires line.Packet? || line.OutOfRangePacket?
  {
    var p := ActivePredicate(stack);
    var m := if p == "" then 0 else MinVersionFor(p);
    // a number that does not fit is recorded as the zero entry
    if line.Packet? then Entry(line.id, Name(line.id), line.length, m, p) else Entry(0, "", 0, m, p)
  }

  /** The value of a lower-case hexadecimal digit, or -1. */
  function HexValue(c: char): int {
    if '0' <= c <= '9' then c as int - '0' as int else if 'a' <= c <= 'f' then c as int - 'a' as int + 10 else -1
  }

  /** A name is `0x` and four lower-case hexadecimal digits that give the command back. */
  lemma NameIsHex(id: int)
    requires 0 <= id < 65536
    ensures var n := Name(id);
      && |n| == 6 && n[..2] == "0x"
      && (forall i :: 2 <= i < 6 ==> 0 <= HexValue(n[i]) < 16)
      && ((HexValue(n[2]) * 16 + HexValue(n[3])) * 16 + HexValue(n[4])) * 16 + HexValue(n[5]) == id
  {
    var a, b, c, d := id / 4096 % 16, id / 256 % 16, id / 16 % 16, id % 16;
    FourDigits(id, a, b, c, d);
    HexDigitValue(a);
    HexDigitValue(b);
    HexDigitValue(c);
    HexDigitValue(d);
    assert Name(id) == "0x" + [HexDigit(a), HexDigit(b), HexDigit(c), HexDigit(d)];
    hide HexDigit, Name;
  }

  lemma FourDigits(id: int, a: int, b: int, c: int, d: int)
    requires 0 <= id < 65536 && a == id / 4096 % 16 && b == id / 256 % 16 && c == id / 16 % 16 && d == id % 16
    ensures ((a * 16 + b) * 16 + c) * 16 + d == id
    ensures 0 <= a < 16 && 0 <= b < 16 && 0 <= c < 16 && 0 <= d < 16
  {
    assert a == id / 4096;
    assert b == id / 256 - 16 * a;
  }

  lemma HexDigitValue(d: int)
    requires 0 <= d < 16
    ensures HexValue(HexDigit(d)) == d
  {
  }

  /** The recorded minimum: 0 without a condition, else the least number the scan of the condition finds. */
  ghost predicate HasItsMinimum(e: Entry) {
    if e.condition == "" then e.minVersion == 0 else LeastNumber(e.minVersion, Thresholds(e.condition))
  }

  lemma EntryMinimum(line: Line, stack: seq<Frame>)
    requires line.Packet? || line.OutOfRangePacket?
    ensures HasItsMinimum(MakeEntry(line, stack))
  {
    hide ActivePredicate, MinVersionFor, LeastNumber, Thresholds;
    MinimumOfText(ActivePredicate(stack));
  }

  /** An entry has the command, name and length of its line; the zero entry stands for a number out of range. */
  ghost predicate Describes(e: Entry, line: Line) {
    if line.Packet? then e.id == line.id && e.name == Name(line.id) && e.length == line.length
    else line.OutOfRangePacket? && e.id == 0 && e.name == "" && e.length == 0
  }

  /** The lines that define something. */
  function Packets(lines: seq<Line>): seq<Line> {
    if lines == [] then []
    else (if lines[0].Packet? || lines[0].OutOfRangePacket? then [lines[0]] else []) + Packets(lines[1..])
  }

  ghost predicate Entered(entries: seq<Entry>, lines: seq<Line>) {
    && |entries| == |lines|
    && forall i :: 0 <= i < |entries| ==> Describes(entries[i], lines[i]) && HasItsMinimum(entries[i])
  }

  lemma EntryDescribes(line: Line, stack: seq<Frame>)
    requires line.Packet? || line.OutOfRangePacket?
    ensures Describes(MakeEntry(line, stack), line)
  {
    hide Name, ActivePredicate, MinVersionFor;
  }

  lemma EnteredCons(e: Entry, line: Line, entries: seq<Entry>, lines: seq<Line>)
    requires Entered(entries, lines) && Describes(e, line) && HasItsMinimum(e)
    ensures Entered([e] + entries, [line] + lines)
  {
    hide Describes, HasItsMinimum;
  }

  /** Every accepted source is recorded line by line, each entry with the minimum of its condition. */
  lemma {:induction false} ParsedEntries(lines: seq<Line>, stack: seq<Frame>)
    requires ParseFrom(lines, stack).Ok?
    ensures Entered(ParseFrom(lines, stack).entries, Packets(lines))
    decreases |lines|
  {
    if lines != [] {
      if lines[0].Packet? || lines[0].OutOfRangePacket? {
        ParsedEntries(lines[1..], stack);
        EntryMinimum(lines[0], stack);
        EntryDescribes(lines[0], stack);
        hide MakeEntry, HasItsMinimum, Describes, Entered;
        EnteredCons(MakeEntry(lines[0], stack), lines[0], ParseFrom(lines[1..], stack).entries, Packets(lines[1..]));
      } else {
        hide Directive, HasItsMinimum, Describes;
        ParsedEntries(lines[1..], Directive(lines[0], stack).0);
      }
    }
  }

  /** What a directive line does to the stack. */
  function Directive(line: Line, stack: seq<Frame>): (seq<Frame>, Option<Error>)
    requires !line.Packet? && !line.OutOfRangePacket?
  {
    match line
    case If(text) =>
      if ValidPredicate(Trim(text)) then (stack + [Frame(Trim(text), [])], None) else (stack, Some(InvalidPredicate))
    case Ifdef(_) => (stack + [Frame("", [])], None)
    case Ifndef(_) => (stack + [Frame("", [])], None)
    case Elif(text) =>
      if stack == [] then (stack, Some(ElifWithoutIf))
      else if !ValidPredicate(Trim(text)) then (stack, Some(InvalidPredicate))
      else
        var top := stack[|stack| - 1];
        (stack[..|stack| - 1] + [Frame(Trim(text), top.history + [top.condition])], None)
    case Else =>
      if stack == [] then (stack, Some(ElseWithoutIf))
      else
        var top := stack[|stack| - 1];
        (stack[..|stack| - 1] + [Frame(ELSE, top.history + [top.condition])], None)
    case Endif =>
      if stack == [] then (stack, Some(EndifWithoutIf)) else (stack[..|stack| - 1], None)
    case _ => (stack, None)
  }

  /** How a line changes the number of open blocks. */
  function DepthChange(line: Line): int {
    if line.If? || line.Ifdef? || line.Ifndef? then 1 else if line.Endif? then -1 else 0
  }

  /** A line that works on the innermost open block. */
  predicate NeedsBlock(line: Line) {
    line.Elif? || line.Else? || line.Endif?
  }

  /** A head the validator refuses. */
  predicate BadHead(line: Line) {
    (line.If? && !ValidPredicate(Trim(line.text))) || (line.Elif? && !ValidPredicate(Trim(line.text)))
  }

  /**
    What a caller of a directive can rely on: it fails exactly on a bad head or without the block it
    needs, and then changes nothing; otherwise the number of open blocks changes as it should, all
    blocks but the innermost are untouched, and a switched block remembers every head tried so far.
   */
  lemma DirectiveEffect(line: Line, stack: seq<Frame>)
    requires !line.Packet? && !line.OutOfRangePacket?
    ensures var (next, error) := Directive(line, stack);
      && (error.Some? <==> BadHead(line) || (NeedsBlock(line) && stack == []))
      && (error.Some? ==> next == stack)
      && (error.Some? && NeedsBlock(line) && stack == [] ==> error != Some(InvalidPredicate))
      && (error == None ==>
            && |next| == |stack| + DepthChange(line)
            && next[..|stack| - (if NeedsBlock(line) then 1 else 0)] ==
               stack[..|stack| - (if NeedsBlock(line) then 1 else 0)]
            && (line.Elif? || line.Else? ==>
                  Tried(next[|stack| - 1])[..|Tried(next[|stack| - 1])| - 1] == Tried(stack[|stack| - 1])))
  {
    hide Trim, ValidPredicate;
  }

  /** Which error a directive reports. */
  lemma DirectiveErrors(line: Line, stack: seq<Frame>)
    requires !line.Packet? && !line.OutOfRangePacket?
    ensures var error := Directive(line, stack).1;
      && (error == Some(ElifWithoutIf) <==> line.Elif? && stack == [])
      && (error == Some(ElseWithoutIf) <==> line.Else? && stack == [])
      && (error == Some(EndifWithoutIf) <==> line.Endif? && stack == [])
      && (error == Some(InvalidPredicate) <==> BadHead(line) && !(line.Elif? && stack == []))
  {
    hide Trim, ValidPredicate;
  }

  /** The heads of a block tried so far, the current one last. */
  function Tried(f: Frame): (heads: seq<string>)
    ensures heads != []
  {
    f.history + [f.condition]
  }

  /** A stored head: none, the #else sentinel, or a trimmed text the validator accepts. */
  ghost predicate Stored(head: string) {
    head == "" || head == ELSE || (Tight(head) && ValidPredicate(head))
  }

  ghost predicate StoredHeads(stack: seq<Frame>) {
    forall i, h :: 0 <= i < |stack| && h in Tried(stack[i]) ==> Stored(h)
  }

  /** Directives only ever store such heads. */
  lemma DirectiveKeepsHeads(line: Line, stack: seq<Frame>)
    requires !line.Packet? && !line.OutOfRangePacket? && StoredHeads(stack)
    ensures StoredHeads(Directive(line, stack).0)
  {
    if line.If? || line.Elif? {
      var l, r := TrimParts(line.text);
    }
    hide Trim, Tight, ValidPredicate;
    var next := Directive(line, stack).0;
    forall i, h | 0 <= i < |next| && h in Tried(next[i]) ensures Stored(h) {
      if i < |stack| && h in Tried(stack[i]) {
        assert Stored(h);
      }
    }
  }

  function Prepend(entries: seq<Entry>, r: Result): Result {
    match r
    case Ok(more) => Ok(entries + more)
    case Err(e) => Err(e)
  }

  /** The result of parsing the remaining lines under the given open blocks. */
  function ParseFrom(lines: seq<Line>, stack: seq<Frame>): Result
    decreases |lines|
  {
    if lines == [] then
      if stack == [] then Ok([]) else Err(Unclosed(|stack|))
    else if lines[0].Packet? || lines[0].OutOfRangePacket? then
      Prepend([MakeEntry(lines[0], stack)], ParseFrom(lines[1..], stack))
    else
      var (next, error) := Directive(lines[0], stack);
      if error.Some? then Err(error.value) else ParseFrom(lines[1..], next)
  }

  /** How the lines change the number of open blocks. */
  function Balance(lines: seq<Line>): int {
    if lines == [] then 0 else DepthChange(lines[0]) + Balance(lines[1..])
  }

  /** Unclosed blocks are reported with their number: the blocks opened less those closed. */
  lemma {:induction false} UnclosedBlocks(lines: seq<Line>, stack: seq<Frame>)
    ensures match ParseFrom(lines, stack)
      case Ok(_) => |stack| + Balance(lines) == 0
      case Err(Unclosed(n)) => |stack| + Balance(lines) == n > 0
      case Err(_) => exists i :: 0 <= i < |lines| && (BadHead(lines[i]) || NeedsBlock(lines[i]))
    decreases |lines|
  {
    if lines != [] {
      assert lines[1..] == [] || lines[1..][0] == lines[1];
      if lines[0].Packet? || lines[0].OutOfRangePacket? {
        UnclosedBlocks(lines[1..], stack);
        hide MakeEntry, BadHead;
        assert forall i :: 0 <= i < |lines[1..]| ==> lines[1..][i] == lines[i + 1];
      } else {
        DirectiveEffect(lines[0], stack);
        DirectiveErrors(lines[0], stack);
        hide Directive, BadHead;
        UnclosedBlocks(lines[1..], Directive(lines[0], stack).0);
        assert forall i :: 0 <= i < |lines[1..]| ==> lines[1..][i] == lines[i + 1];
      }
    }
  }

  /** The counts add up over parts of a source, and a line counts once as what it is. */
  lemma {:induction false} CountsAdd(a: seq<Line>, b: seq<Line>)
    ensures CountSymbolic(a + b) == CountSymbolic(a) + CountSymbolic(b)
    ensures CountBlocks(a + b) == CountBlocks(a) + CountBlocks(b)
    ensures |Packets(a + b)| == |Packets(a)| + |Packets(b)|
    ensures |a| == 1 ==>
      && CountSymbolic(a) == (if a[0] == SymbolicPacket then 1 else 0)
      && CountBlocks(a) == (match a[0] case If(_) => 1 case Ifdef(_) => 1 case _ => 0)
      && |Packets(a)| == (match a[0] case Packet(_, _) => 1 case OutOfRangePacket => 1 case _ => 0)
  {
    if a == [] {
      assert a + b == b;
    } else {
      assert (a + b)[1..] == a[1..] + b;
      CountsAdd(a[1..], b);
    }
  }

  function CountSymbolic(lines: seq<Line>): nat {
    if lines == [] then 0 else (if lines[0].SymbolicPacket? then 1 else 0) + CountSymbolic(lines[1..])
  }

  function CountBlocks(lines: seq<Line>): nat {
    if lines == [] then 0 else (if lines[0].If? || lines[0].Ifdef? then 1 else 0) + CountBlocks(lines[1..])
  }

  /** Open, switch or close a block; other lines leave the stack alone. */
  method ApplyDirective(line: Line, stack: seq<Frame>) returns (next: seq<Frame>, error: Option<Error>)
    requires !line.Packet? && !line.OutOfRangePacket?
    ensures (next, error) == Directive(line, stack)
  {
    next, error := stack, None;
    match line
    case If(text) =>
      if !ValidPredicate(Trim(text)) {
        return next, Some(InvalidPredicate);
      }
      next := stack + [Frame(Trim(text), [])];
    case Ifdef(_) =>
      next := stack + [Frame("", [])];
    case Ifndef(_) =>
      next := stack + [Frame("", [])];
    case Elif(text) =>
      if |stack| == 0 {
        return next, Some(ElifWithoutIf);
      }
      if !ValidPredicate(Trim(text)) {
        return next, Some(InvalidPredicate);
      }
      var top := stack[|stack| - 1];
      next := stack[..|stack| - 1] + [Frame(Trim(text), top.history + [top.condition])];
    case Else =>
      if |stack| == 0 {
        return next, Some(ElseWithoutIf);
      }
      var top := stack[|stack| - 1];
      next := stack[..|stack| - 1] + [Frame(ELSE, top.history + [top.condition])];
    case Endif =>
      if |stack| == 0 {
        return next, Some(EndifWithoutIf);
      }
      next := stack[..|stack| - 1];
    case _ =>
  }

  /** Entries are in source order; every symbolic line and every #if or #ifdef is counted, none twice. */
  method Parse(lines: seq<Line>) returns (r: Result, st: Stats)
    ensures r == ParseFrom(lines, [])
    ensures r.Ok? ==> st == Stats(|r.entries|, CountSymbolic(lines), CountBlocks(lines))
    ensures r.Ok? ==> Entered(r.entries, Packets(lines))
  {
    if ParseFrom(lines, []).Ok? {
      ParsedEntries(lines, []);
    }
    hide Entered, Packets;
    var entries: seq<Entry> := [];
    st := Stats(0, 0, 0);
    var stack: seq<Frame> := [];
    var i := 0;
    while i < |lines|
      invariant 0 <= i <= |lines|
      invariant ParseFrom(lines, []) == Prepend(entries, ParseFrom(lines[i..], stack))
      invariant st.entries == |entries|
      invariant st.symbolic + CountSymbolic(lines[i..]) == CountSymbolic(lines)
      invariant st.ifBlocks + CountBlocks(lines[i..]) == CountBlocks(lines)
    {
      assert lines[i..][1..] == lines[i + 1..];
      var line := lines[i];
      if line.Packet? || line.OutOfRangePacket? {
        var e := NewEntry(line, stack);
        entries := entries + [e];
        st := st.(entries := st.entries + 1);
      } else {
        var next, error := ApplyDirective(line, stack);
        if error.Some? {
          return Err(error.value), st;
        }
        stack := next;
        if line.SymbolicPacket? {
          st := st.(symbolic := st.symbolic + 1);
        } else if line.If? || line.Ifdef? {
          st := st.(ifBlocks := st.ifBlocks + 1);
        }
      }
      i := i + 1;
    }
    assert lines[i..] == [];
    if |stack| != 0 {
      return Err(Unclosed(|stack|)), st;
    }
    r := Ok(entries);
  }

  method NewEntry(line: Line, stack: seq<Frame>) returns (e: Entry)
    requires line.Packet? || line.OutOfRangePacket?
    ensures e == MakeEntry(line, stack)
  {
    var p := BuildActivePredicate(stack);
    var m := 0;
    if p != "" {
      m := MinVersion(p);
    }
    if line.Packet? {
      e := Entry(line.id, Name(line.id), line.length, m, p);
    } else {
      e := Entry(0, "", 0, m, p);
    }
  }
}
