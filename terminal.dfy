/** The command terminal (js/terminal.js): a newest-first command history
    browsed with the arrow keys, the dispatch of a command on its first
    word, the argument split of `diff`, and the saved copy of the history.
    The page is reduced to the input line's text and the list of blocks
    written to the output pane. */
module Terminal {
  import opened Wrappers
  import opened Text

  // ---------------------------------------------------------------------
  // Commands

  datatype Command =
    | Help | Clear | Diff | Hash | Regex | Encode | Decode | Analyze
    | Uuid | Timestamp | Jwt | Info | Exit
    | Unknown(name: string)

  const CommandNames: set<string> :=
    {"help", "clear", "diff", "hash", "regex", "encode", "decode", "analyze",
     "uuid", "timestamp", "jwt", "info", "exit"}

  /** The `switch (cmd)` of `executeCommand`. */
  function ParseCommand(name: string): (c: Command)
    ensures c.Unknown? <==> name !in CommandNames
    ensures c.Unknown? ==> c.name == name
  {
    if name == "help" then Help
    else if name == "clear" then Clear
    else if name == "diff" then Diff
    else if name == "hash" then Hash
    else if name == "regex" then Regex
    else if name == "encode" then Encode
    else if name == "decode" then Decode
    else if name == "analyze" then Analyze
    else if name == "uuid" then Uuid
    else if name == "timestamp" then Timestamp
    else if name == "jwt" then Jwt
    else if name == "info" then Info
    else if name == "exit" then Exit
    else Unknown(name)
  }

  /** A block written to the output pane. `Handled` stands for the block
      that a handler outside this model (hashing, regular expressions,
      coding, statistics, UUIDs, the clock, JWT decoding) writes. */
  datatype Block =
    | Echo(line: string)
    | HelpText
    | InfoText
    | ClearedText
    | DiffBlock(text1: string, text2: string)
    | Error(message: string)
    | Handled(cmd: Command, parts: seq<string>)

  const DiffUsage: string := "Usage: diff <text1> <text2>"

  function UnknownMessage(name: string): string {
    "Unknown command: " + name + ". Type 'help' for available commands."
  }

  // ---------------------------------------------------------------------
  // The arguments of `diff`

  /** `Math.ceil(parts.length / 2)`: where the second text starts. */
  function DiffSplit(n: nat): (half: nat)
    requires n >= 3
    ensures 2 <= half < n
    ensures 2 * half == n || 2 * half == n + 1
  {
    (n + 1) / 2
  }

  /** `executeDiff`: the words after the command split at the middle, the
      second half taking the extra word when their number is even; `None`
      (the usage message) below three parts. */
  function DiffArgs(parts: seq<string>): (r: Option<(string, string)>)
    ensures r.None? <==> |parts| < 3
  {
    if |parts| < 3 then None
    else
      var half := DiffSplit(|parts|);
      Some((Join(parts[1..half], " "), Join(parts[half..], " ")))
  }

  /** The two texts hold all the words after the command, in order: joined
      by one space they give back the argument text. The second text has
      as many words as the first or one more. */
  lemma {:induction false} DiffArgsSplitWords(parts: seq<string>)
    requires |parts| >= 3
    ensures var (text1, text2) := DiffArgs(parts).value;
            text1 + " " + text2 == Join(parts[1..], " ")
    ensures var half := DiffSplit(|parts|);
            && 1 <= |parts[1..half]| <= |parts[half..]| <= |parts[1..half]| + 1
  {
    var half := DiffSplit(|parts|);
    assert parts[1..] == parts[1..half] + parts[half..];
    JoinAppend(parts[1..half], parts[half..], " ");
  }

  /** With non-empty words, both texts are non-empty. */
  lemma {:induction false} DiffArgsNonEmpty(parts: seq<string>)
    requires |parts| >= 3 && NoEmptyPart(parts)
    ensures DiffArgs(parts).value.0 != [] && DiffArgs(parts).value.1 != []
  {
    var half := DiffSplit(|parts|);
    assert parts[1..half][0] == parts[1];
    assert parts[half..][0] == parts[half];
    JoinFirst(parts[1..half], " ");
    JoinFirst(parts[half..], " ");
  }

  lemma {:induction false} JoinFirst(parts: seq<string>, sep: string)
    requires |parts| > 0
    ensures |Join(parts, sep)| >= |parts[0]|
  {
  }

  lemma {:induction false} JoinAppend(a: seq<string>, b: seq<string>, sep: string)
    requires |a| > 0 && |b| > 0
    ensures Join(a + b, sep) == Join(a, sep) + sep + Join(b, sep)
    decreases |a|
  {
    if |a| == 1 {
      assert (a + b)[1..] == b;
    } else {
      assert (a + b)[1..] == a[1..] + b;
      JoinAppend(a[1..], b, sep);
    }
  }

  /** The blocks `executeCommand` writes after the echo of the command, and
      whether `clear` empties the pane first. */
  function Respond(parts: seq<string>): (r: (bool, seq<Block>))
    requires |parts| > 0
    ensures r.0 <==> ParseCommand(ToLower(parts[0])) == Clear
    ensures |r.1| <= 1
    ensures ParseCommand(ToLower(parts[0])).Unknown? ==> r.1 == [Error(UnknownMessage(ToLower(parts[0])))]
  {
    var cmd := ParseCommand(ToLower(parts[0]));
    match cmd
    case Help => (false, [HelpText])
    case Clear => (true, [ClearedText])
    case Diff =>
      (false, match DiffArgs(parts)
              case None => [Error(DiffUsage)]
              case Some((text1, text2)) => [DiffBlock(text1, text2)])
    case Info => (false, [InfoText])
    case Exit => (false, [])
    case Unknown(name) => (false, [Error(UnknownMessage(name))])
    case _ => (false, [Handled(cmd, parts)])
  }

  /** The pane after `executeCommand(command)`: the echo of the command
      unless it clears the pane, then its reply. */
  function PaneAfter(output: seq<Block>, command: string): seq<Block> {
    var (cleared, blocks) := Respond(SplitWhitespace(command));
    (if cleared then [] else output + [Echo(command)]) + blocks
  }

  // ---------------------------------------------------------------------
  // History

  const HistoryLimit: nat := 100

  /** `history.slice(0, 100)`. */
  function SavedHistory(history: seq<string>): (r: seq<string>)
    ensures |r| <= HistoryLimit
  {
    if |history| <= HistoryLimit then history else history[..HistoryLimit]
  }

  /** The saved copy is the newest hundred commands: a prefix of the
      history that is the whole history while it is short. Saving after a
      new command keeps it newest first. */
  lemma {:induction false} SavedHistoryNewest(history: seq<string>, command: string)
    ensures var r := SavedHistory(history);
            && |r| == (if |history| < HistoryLimit then |history| else HistoryLimit)
            && r == history[..|r|]
    ensures var r := SavedHistory([command] + history);
            && r[0] == command
            && r[1..] == SavedHistory(history)[..|r| - 1]
  {
    var h := [command] + history;
    var r := SavedHistory(h);
    assert r[1..] == h[1..|r|];
  }

  /** The arrow-key step of `navigateHistory`: `-1` (ArrowUp) moves to an
      older command while there is one, `1` (ArrowDown) to a newer one
      while the index is above 0. */
  function Navigate(index: int, direction: int, length: nat): (i: int)
    requires -1 <= index <= length - 1
    ensures -1 <= i <= length - 1
    ensures direction == -1 ==> i == (if index < length - 1 then index + 1 else index)
    ensures direction == 1 ==> i == (if index > 0 then index - 1 else index)
    ensures direction != -1 && direction != 1 ==> i == index
    ensures index >= 0 ==> i >= 0
  {
    if direction == -1 && index < length - 1 then index + 1
    else if direction == 1 && index > 0 then index - 1
    else index
  }

  /** Moving up and then down returns to the same entry, as long as the
      move up was possible. */
  lemma {:induction false} NavigateUpDown(index: int, length: nat)
    requires -1 <= index < length - 1
    ensures Navigate(Navigate(index, -1, length), 1, length) == (if index == -1 then 0 else index)
  {
  }

  datatype Key = Enter | ArrowUp | ArrowDown | OtherKey

  class TerminalModule {
    /** Newest command first. */
    var history: seq<string>
    var historyIndex: int
    /** The text of the input line. */
    var input: string
    var terminalHistory: seq<string>
    var output: seq<Block>

    ghost predicate Valid()
      reads this
    {
      && -1 <= historyIndex <= |history| - 1
      && terminalHistory == SavedHistory(history)
    }

    constructor()
      ensures Valid()
      ensures history == [] && historyIndex == -1 && input == [] && output == []
    {
      history := [];
      historyIndex := -1;
      input := [];
      terminalHistory := [];
      output := [];
    }

    /** `navigateHistory(direction)`: step the index and show the entry it
        names, or an empty line. */
    method NavigateHistory(direction: int)
      requires Valid()
      modifies this
      ensures Valid()
      ensures history == old(history) && terminalHistory == old(terminalHistory) && output == old(output)
      ensures historyIndex == Navigate(old(historyIndex), direction, |history|)
      ensures input == if 0 <= historyIndex then history[historyIndex] else []
    {
      if direction == -1 && historyIndex < |history| - 1 {
        historyIndex := historyIndex + 1;
      } else if direction == 1 && historyIndex > 0 {
        historyIndex := historyIndex - 1;
      }
      if historyIndex >= 0 && historyIndex < |history| {
        input := history[historyIndex];
      } else {
        input := [];
      }
    }

    /** `executeCommand(command)`: echo it, put it first in the history,
        save the history, and dispatch on its first word, lower-cased. */
    method ExecuteCommand(command: string)
      requires Valid()
      modifies this
      ensures Valid()
      ensures history == [command] + old(history)
      ensures historyIndex == old(historyIndex) && input == old(input)
      ensures output == PaneAfter(old(output), command)
    {
      output := output + [Echo(command)];
      history := [command] + history;
      terminalHistory := SavedHistory(history);
      var parts := SplitWhitespace(command);
      var (cleared, blocks) := Respond(parts);
      if cleared {
        output := [];
      }
      output := output + blocks;
    }

    /** The Enter branch of `handleKeydown`, given the trimmed line: run it
        unless it is empty, then empty the line and leave history
        browsing. */
    method Submit(command: string)
      requires Valid()
      modifies this
      ensures Valid()
      ensures command == [] ==>
                history == old(history) && historyIndex == old(historyIndex)
                && input == old(input) && output == old(output)
      ensures command != [] ==>
                history == [command] + old(history) && historyIndex == -1 && input == []
                && output == PaneAfter(old(output), command)
    {
      if command != [] {
        ExecuteCommand(command);
        input := [];
        historyIndex := -1;
      }
    }

    /** `handleKeydown(e)`: Enter runs the trimmed line unless it is blank,
        then empties the line and leaves history browsing; the arrows
        browse. */
    method HandleKeydown(key: Key)
      requires Valid()
      modifies this
      ensures Valid()
      ensures key == Enter && Trim(old(input)) == [] ==>
                history == old(history) && historyIndex == old(historyIndex)
                && input == old(input) && output == old(output)
      ensures key == Enter && Trim(old(input)) != [] ==>
                history == [Trim(old(input))] + old(history) && historyIndex == -1 && input == []
      ensures key == Enter && Trim(old(input)) != [] ==> output == PaneAfter(old(output), Trim(old(input)))
      ensures key == ArrowUp ==> history == old(history) && historyIndex == Navigate(old(historyIndex), -1, |history|)
      ensures key == ArrowDown ==> history == old(history) && historyIndex == Navigate(old(historyIndex), 1, |history|)
      ensures key == ArrowUp || key == ArrowDown ==>
                output == old(output) && input == if 0 <= historyIndex then history[historyIndex] else []
      ensures key == OtherKey ==>
                history == old(history) && historyIndex == old(historyIndex)
                && input == old(input) && output == old(output)
    {
      match key
      case Enter => Submit(Trim(input));
      case ArrowUp => NavigateHistory(-1);
      case ArrowDown => NavigateHistory(1);
      case OtherKey =>
    }
  }

  /** The words of an entered command are non-empty, so a `diff` with
      enough words always has two non-empty texts. */
  lemma {:induction false} EnteredDiffTexts(line: string)
    requires Trim(line) != [] && |SplitWhitespace(Trim(line))| >= 3
    ensures var parts := SplitWhitespace(Trim(line));
            DiffArgs(parts).value.0 != [] && DiffArgs(parts).value.1 != []
  {
    var command := Trim(line);
    SplitTrimmedWords(command);
    DiffArgsNonEmpty(SplitWhitespace(command));
  }
}
