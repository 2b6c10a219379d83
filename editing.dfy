/** The data-level logic of the interactive editing handlers: the commands
    `edit_frame` applies to one frame's list of lines, and the collection of
    lines that `add_new_frame` turns into a new frame. Reading from the
    terminal is not modelled: commands arrive already split and parsed, and
    lines arrive already stripped of trailing whitespace. */
module Editing {
  import opened Sequences
  import opened Options

  /** One command of the `edit_frame` prompt, already parsed. A line number is
      `None` when it was missing or did not parse as an unsigned integer; the
      `text` of `ReplaceLine` is the (trimmed) line the user would type when
      prompted, consulted only when the line number is in range. */
  datatype LineCommand =
    | AppendLine(text: string)                          // "a"
    | ReplaceLine(lineNum: Option<nat>, text: string)   // "e <n>"
    | DeleteLine(lineNum: Option<nat>)                  // "d <n>"
    | Finish                                            // "q"
    | Invalid                                           // anything else

  /** The effect of one command on a frame's lines. */
  function ApplyLineCommand(content: seq<string>, cmd: LineCommand): (r: seq<string>)
    ensures cmd.AppendLine? ==>
      |r| == |content| + 1 && r[|content|] == cmd.text && r[..|content|] == content
    ensures cmd.ReplaceLine? && cmd.lineNum.Some? && cmd.lineNum.value < |content| ==>
      |r| == |content| && r[cmd.lineNum.value] == cmd.text &&
      forall j :: 0 <= j < |content| && j != cmd.lineNum.value ==> r[j] == content[j]
    ensures cmd.DeleteLine? && cmd.lineNum.Some? && cmd.lineNum.value < |content| ==>
      |r| == |content| - 1 &&
      (forall j :: 0 <= j < cmd.lineNum.value ==> r[j] == content[j]) &&
      (forall j :: cmd.lineNum.value <= j < |r| ==> r[j] == content[j + 1])
    ensures (cmd.ReplaceLine? || cmd.DeleteLine?) && (cmd.lineNum.None? || cmd.lineNum.value >= |content|) ==>
      r == content
    ensures cmd.Finish? || cmd.Invalid? ==> r == content
  {
    match cmd
    case AppendLine(text) => content + [text]
    case ReplaceLine(lineNum, text) =>
      if lineNum.Some? && lineNum.value < |content| then content[lineNum.value := text] else content
    case DeleteLine(lineNum) =>
      if lineNum.Some? && lineNum.value < |content| then Remove(content, lineNum.value) else content
    case Finish => content
    case Invalid => content
  }

  /** The lines of a frame after an editing session that reads `cmds` in
      order: every command up to the first `Finish` is applied. */
  function ApplyLineCommands(content: seq<string>, cmds: seq<LineCommand>): seq<string>
    decreases |cmds|
  {
    if cmds == [] || cmds[0].Finish? then content
    else ApplyLineCommands(ApplyLineCommand(content, cmds[0]), cmds[1..])
  }

  /** Commands typed after `q` never reach the frame. */
  lemma {:induction false} FinishEndsSession(content: seq<string>, before: seq<LineCommand>, after: seq<LineCommand>)
    requires forall i :: 0 <= i < |before| ==> !before[i].Finish?
    ensures ApplyLineCommands(content, before + [Finish] + after) == ApplyLineCommands(content, before)
    decreases |before|
  {
    if before == [] {
      assert (before + [Finish] + after)[0] == Finish;
    } else {
      var cmds := before + [Finish] + after;
      assert cmds[0] == before[0];
      assert cmds[1..] == before[1..] + [Finish] + after;
      FinishEndsSession(ApplyLineCommand(content, before[0]), before[1..], after);
    }
  }

  /** A session that only appends adds exactly the appended lines, in order,
      after the existing ones. */
  lemma {:induction false} AppendsOnly(content: seq<string>, texts: seq<string>)
    ensures ApplyLineCommands(content, seq(|texts|, i requires 0 <= i < |texts| => AppendLine(texts[i]))) == content + texts
    decreases |texts|
  {
    var cmds := seq(|texts|, i requires 0 <= i < |texts| => AppendLine(texts[i]));
    if texts != [] {
      var tail := seq(|texts| - 1, i requires 0 <= i < |texts| - 1 => AppendLine(texts[1..][i]));
      assert cmds[1..] == tail;
      AppendsOnly(content + [texts[0]], texts[1..]);
      assert content + [texts[0]] + texts[1..] == content + texts;
    }
  }

  /** True when `s` stops before the first blank line: `lines` begins with
      `s`, no line of `s` is blank, and `s` is followed by a blank line or by
      the end of the input. */
  predicate CollectedUpToBlank(lines: seq<string>, s: seq<string>)
  {
    |s| <= |lines| && s == lines[..|s|] &&
    (forall i :: 0 <= i < |s| ==> s[i] != "") &&
    (|s| == |lines| || lines[|s|] == "")
  }

  /** The lines `add_new_frame` collects: those before the first blank one. A
      line that is blank after trimming is empty once trailing whitespace is
      stripped; the end of the input reads as an empty line. */
  function CollectLines(lines: seq<string>): (r: seq<string>)
    ensures CollectedUpToBlank(lines, r)
    decreases |lines|
  {
    if lines == [] || lines[0] == "" then []
    else [lines[0]] + CollectLines(lines[1..])
  }

  /** There is only one way to stop at the first blank line. */
  lemma CollectedUpToBlankUnique(lines: seq<string>, s: seq<string>, t: seq<string>)
    requires CollectedUpToBlank(lines, s) && CollectedUpToBlank(lines, t)
    ensures s == t
  {
  }

  /** The loop of `add_new_frame`: read lines until a blank one, keeping the
      lines read before it. */
  method CollectFrameLines(lines: seq<string>) returns (content: seq<string>)
    ensures CollectedUpToBlank(lines, content)
    ensures content == CollectLines(lines)
  {
    content := [];
    var i := 0;
    while i < |lines| && lines[i] != ""
      invariant i <= |lines|
      invariant content == lines[..i]
      invariant forall k :: 0 <= k < i ==> lines[k] != ""
    {
      content := content + [lines[i]];
      i := i + 1;
    }
    CollectedUpToBlankUnique(lines, content, CollectLines(lines));
  }
}
