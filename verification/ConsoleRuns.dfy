/** What holds of the serial console after every stream of input bytes. */
module ConsoleRuns {
  import opened Words
  import opened Texts
  import opened Decimals
  import opened Terminal
  import opened Consoles

  /** The console after one iteration of the main loop per input; `None` is an idle poll. */
  function Run(inputs: seq<Option<char>>): Shell {
    if inputs == [] then START else Run(inputs[..|inputs| - 1]).Turn(inputs[|inputs| - 1])
  }

  /** Everything the serial port has been sent by then. */
  function Output(m: Messages, inputs: seq<Option<char>>): string {
    if inputs == [] then Greeting(m)
    else Output(m, inputs[..|inputs| - 1]) + Run(inputs[..|inputs| - 1]).Tick().Emits(m, inputs[|inputs| - 1])
  }

  lemma {:induction false} RunStaysValid(inputs: seq<Option<char>>)
    ensures Run(inputs).Valid()
  {
    if inputs != [] { RunStaysValid(inputs[..|inputs| - 1]); }
  }

  // ---------------------------------------------------------------- the line editor

  /** One editing key, on the line alone. */
  function Edit(line: string, c: char): string {
    if IsRubout(c) then (if line == "" then "" else line[..|line| - 1])
    else if Printable(c) && |line| < LINE_MAX then line + [c]
    else line
  }

  function Edited(keys: string): string {
    if keys == "" then "" else Edit(Edited(keys[..|keys| - 1]), keys[|keys| - 1])
  }

  /** The bytes received, idle polls left out. */
  function Received(inputs: seq<Option<char>>): string {
    if inputs == [] then "" else
      Received(inputs[..|inputs| - 1]) + match inputs[|inputs| - 1] case None => "" case Some(c) => [c]
  }

  /** The bytes since the last newline. */
  function Since(bytes: string): string {
    if bytes == "" || IsNewline(bytes[|bytes| - 1]) then ""
    else Since(bytes[..|bytes| - 1]) + [bytes[|bytes| - 1]]
  }

  /** One edited line for every newline. */
  function ExecutedLines(bytes: string): seq<string> {
    if bytes == "" then [] else
      var front, c := bytes[..|bytes| - 1], bytes[|bytes| - 1];
      ExecutedLines(front) + if IsNewline(c) then [Edited(Since(front))] else []
  }

  lemma SegmentsSnoc(bytes: string, c: char)
    ensures Since(bytes + [c]) == if IsNewline(c) then "" else Since(bytes) + [c]
    ensures ExecutedLines(bytes + [c]) == ExecutedLines(bytes) + if IsNewline(c) then [Edited(Since(bytes))] else []
  {
    assert (bytes + [c])[..|bytes|] == bytes;
  }

  lemma EditedSnoc(keys: string, c: char)
    ensures Edited(keys + [c]) == Edit(Edited(keys), c)
  {
    assert (keys + [c])[..|keys|] == keys;
  }

  lemma PollEdits(shell: Shell, c: char)
    ensures shell.Poll(Some(c)).line == if IsNewline(c) then "" else Edit(shell.line, c)
    ensures shell.Poll(Some(c)).executed == shell.executed + if IsNewline(c) then [shell.line] else []
  {
  }

  lemma TurnRefinesEdit(shell: Shell, bytes: string, input: Option<char>)
    requires shell.executed == ExecutedLines(bytes) && shell.line == Edited(Since(bytes))
    ensures var bytes' := bytes + match input { case None => "" case Some(c) => [c] };
      shell.Turn(input).executed == ExecutedLines(bytes') && shell.Turn(input).line == Edited(Since(bytes'))
  {
    match input
    case None => assert bytes + "" == bytes;
    case Some(c) =>
      SegmentsSnoc(bytes, c);
      EditedSnoc(Since(bytes), c);
      PollEdits(shell.Tick(), c);
  }

  /** The lines executed, and the line being edited, are the edited segments of the byte stream. */
  lemma {:induction false} EditorRefinesEditFunction(inputs: seq<Option<char>>)
    ensures Run(inputs).executed == ExecutedLines(Received(inputs))
    ensures Run(inputs).line == Edited(Since(Received(inputs)))
  {
    if inputs != [] {
      var front := inputs[..|inputs| - 1];
      EditorRefinesEditFunction(front);
      TurnRefinesEdit(Run(front), Received(front), inputs[|inputs| - 1]);
    }
  }

  function PrintableOnly(keys: string): string {
    if keys == "" then "" else
      PrintableOnly(keys[..|keys| - 1]) + if Printable(keys[|keys| - 1]) then [keys[|keys| - 1]] else ""
  }

  /** Without rubouts the line is what was typed, cut off at the size of the buffer. */
  lemma {:induction false} EditedWithoutRubout(keys: string)
    requires forall i :: 0 <= i < |keys| ==> !IsRubout(keys[i])
    ensures var p := PrintableOnly(keys);
      Edited(keys) == if |p| <= LINE_MAX then p else p[..LINE_MAX]
  {
    if keys != "" { EditedWithoutRubout(keys[..|keys| - 1]); }
  }

  /** A rubout takes back the key before it exactly when that key entered the line, or when there was
      nothing to take: in a full line it removes an older character instead. */
  lemma RuboutTakesBackIff(keys: string, c: char, rubout: char)
    requires !IsRubout(c) && !IsNewline(c) && IsRubout(rubout)
    ensures Edited(keys + [c] + [rubout]) == Edited(keys) <==>
            ((Printable(c) && |Edited(keys)| < LINE_MAX) || Edited(keys) == "")
  {
    var line := Edited(keys);
    EditedSnoc(keys, c);
    EditedSnoc(keys + [c], rubout);
    if Printable(c) && |line| < LINE_MAX { assert (line + [c])[..|line|] == line; }
  }

  /** In a full line of letters, a letter typed in vain and then taken back costs another one. */
  lemma RuboutTakesAnother(rubout: char)
    requires IsRubout(rubout)
    ensures var keys := seq(LINE_MAX, i => 'a');
      Edited(keys) == keys && Edited(keys + ['b'] + [rubout]) == keys[..LINE_MAX - 1]
  {
    var keys := seq(LINE_MAX, i => 'a');
    EditedWithoutRubout(keys);
    AllPrintableKept(keys);
    EditedSnoc(keys, 'b');
    EditedSnoc(keys + ['b'], rubout);
  }

  lemma {:induction false} AllPrintableKept(keys: string)
    requires AllPrintable(keys)
    ensures PrintableOnly(keys) == keys
  {
    if keys != "" { AllPrintableKept(keys[..|keys| - 1]); }
  }

  // ---------------------------------------------------------------- the screen

  lemma RowIsWhole(before: string, pid: string, state: string, name: string)
    requires Plain(before) && Plain(pid) && Plain(state) && Plain(name)
    ensures WholeLines(before + pid + "   " + state + " " + name + "\n")
  {
    PlainAppend(before, pid);
    PlainAppend(before + pid, "   ");
    PlainAppend(before + pid + "   ", state);
    PlainAppend(before + pid + "   " + state, " ");
    PlainAppend(before + pid + "   " + state + " ", name);
    WholeLinesAppend(before + pid + "   " + state + " " + name, "\n");
  }

  lemma PsRowIsWhole(before: string, i: nat)
    requires i < |TASKS| && Plain(before)
    ensures WholeLines(before + Decimal(TASKS[i].pid) + "   " + TASKS[i].state + " " + TASKS[i].name + "\n")
  {
    TasksArePrintable(i);
    DigitsArePlain(Decimal(TASKS[i].pid));
    RowIsWhole(before, Decimal(TASKS[i].pid), TASKS[i].state, TASKS[i].name);
  }

  lemma {:induction false} PsIsWhole(n: nat)
    requires n <= |TASKS|
    ensures WholeLines(Ps(n))
  {
    if n > 0 {
      PsIsWhole(n - 1);
      PsRowIsWhole(Ps(n - 1), n - 1);
    }
  }

  lemma DigitsArePlain(s: string)
    requires forall i :: 0 <= i < |s| ==> IsDigit(s[i])
    ensures Plain(s)
  {
  }

  lemma UnameIsWhole()
    ensures WholeLines(Uname())
  {
    var a := SYSNAME + " " + NODENAME + " " + RELEASE;
    assert Plain(SYSNAME + " " + NODENAME);
    assert Plain(" " + RELEASE);
    PlainAppend(SYSNAME + " " + NODENAME + " ", RELEASE);
    PlainAppend(a, " ");
    PlainAppend(a + " ", VERSION);
    PlainAppend(a + " " + VERSION, " ");
    PlainAppend(a + " " + VERSION + " ", MACHINE);
    WholeLinesAppend(a + " " + VERSION + " " + MACHINE, "\n");
  }

  lemma ReplyIsWhole(m: Messages, line: string, ticks: nat)
    requires AllPrintable(line) && line != "clear"
    ensures WholeLines(Reply(m, line, ticks))
  {
    if line == "info" {
      WholeLinesConcat(m.infoKernel, m.infoLayers);
      WholeLinesConcat(m.infoKernel + m.infoLayers, m.infoBoot);
    }
    else if line == "uname" { UnameIsWhole(); }
    else if line == "ps" { PsIsWhole(|TASKS|); }
    else if "echo " <= line { WholeLinesAppend(line[5..], "\n"); }
    else if line == "uptime" { UptimeIsWhole(ticks); }
  }

  lemma UptimeIsWhole(ticks: nat)
    ensures WholeLines(UPTIME + Decimal(ticks) + "\n")
  {
    DigitsArePlain(Decimal(ticks));
    PlainAppend(UPTIME, Decimal(ticks));
    WholeLinesAppend(UPTIME + Decimal(ticks), "\n");
  }

  lemma ClearReply(m: Messages, ticks: nat)
    ensures Expand(Reply(m, "clear", ticks)) == CLEAR
  {
    assert |"clear"| == 5 && "clear"[0] != "uname"[0] && "clear"[0] != "posix"[0] && "clear"[0] != "echo "[0];
    assert '\n' !in CLEAR;
    ExpandWithoutNewline(CLEAR);
  }

  /** Whatever a command prints, the cursor ends at the start of a blank row. */
  lemma ReplySettles(s: Screen, m: Messages, line: string, ticks: nat)
    requires Shows(s, "") && AllPrintable(line)
    ensures Shows(Render(s, Expand(Reply(m, line, ticks))), "")
  {
    if line == "clear" {
      ClearReply(m, ticks);
      FeedClear(s);
    } else {
      ReplyIsWhole(m, line, ticks);
      RenderWholeLines(s, Reply(m, line, ticks));
    }
  }

  lemma PromptShows(s: Screen)
    requires Shows(s, "")
    ensures Shows(Render(s, Expand(PROMPT)), PROMPT)
  {
    RenderPlain(s, "", PROMPT);
    LastLineOfPrintable("", PROMPT);
    assert "" + PROMPT == PROMPT;
  }

  /** Enter: newline, reply, prompt. */
  lemma EnterShowsPrompt(s: Screen, m: Messages, line: string, ticks: nat)
    requires s.mode == Ground && BlankBelow(s) && AllPrintable(line)
    ensures Shows(Render(s, Expand("\n" + Reply(m, line, ticks) + PROMPT)), PROMPT)
  {
    var reply := Reply(m, line, ticks);
    ExpandAppend("\n" + reply, PROMPT);
    ExpandAppend("\n", reply);
    ExpandOne('\n');
    RenderAppend(s, Expand("\n" + reply), Expand(PROMPT));
    RenderAppend(s, Expand("\n"), Expand(reply));
    FeedNewline(s);
    var s1 := Render(s, Expand("\n"));
    ReplySettles(s1, m, line, ticks);
    PromptShows(Render(s1, Expand(reply)));
  }

  lemma RuboutIsSent()
    ensures Expand(RUBOUT) == RUBOUT
  {
    assert '\n' !in RUBOUT;
    ExpandWithoutNewline(RUBOUT);
  }

  lemma BackspaceKeepsScreen(s: Screen, prompt: string, line: string)
    requires Shows(s, prompt + line) && line != ""
    ensures Shows(Render(s, Expand(RUBOUT)), prompt + line[..|line| - 1])
  {
    RuboutIsSent();
    FeedRubout(s, prompt + line);
    assert (prompt + line)[..|prompt + line| - 1] == prompt + line[..|line| - 1];
  }

  lemma EchoKeepsScreen(s: Screen, prompt: string, line: string, c: char)
    requires Shows(s, prompt + line) && Printable(c)
    ensures Shows(Render(s, Putc(c)), prompt + (line + [c]))
  {
    RenderOne(s, c);
    FeedPrintable(s, prompt + line, c);
    assert prompt + line + [c] == prompt + (line + [c]);
  }

  lemma PollKeepsScreen(s: Screen, m: Messages, shell: Shell, input: Option<char>)
    requires Shows(s, PROMPT + shell.line) && shell.Valid()
    ensures Shows(Render(s, shell.Emits(m, input)), PROMPT + shell.Poll(input).line)
  {
    if input.Some? {
      var c := input.value;
      if IsNewline(c) {
        EnterShowsPrompt(s, m, shell.line, shell.ticks);
        assert PROMPT + "" == PROMPT;
      } else if IsRubout(c) {
        if shell.line != "" { BackspaceKeepsScreen(s, PROMPT, shell.line); }
      } else if Printable(c) && |shell.line| < LINE_MAX {
        EchoKeepsScreen(s, PROMPT, shell.line, c);
      }
    }
  }

  lemma BootShowsPrompt(screen: Screen, m: Messages)
    requires screen.mode == Ground && BlankBelow(screen)
    ensures Shows(Render(screen, Greeting(m)), PROMPT)
  {
    var first := "\n" + m.booted;
    ExpandAppend(first + m.welcome, PROMPT);
    ExpandAppend(first, m.welcome);
    ExpandAppend("\n", m.booted);
    ExpandOne('\n');
    RenderAppend(screen, Expand(first + m.welcome), Expand(PROMPT));
    RenderAppend(screen, Expand(first), Expand(m.welcome));
    RenderAppend(screen, Expand("\n"), Expand(m.booted));
    FeedNewline(screen);
    RenderWholeLines(Render(screen, Expand("\n")), m.booted);
    RenderWholeLines(Render(screen, Expand(first)), m.welcome);
    PromptShows(Render(screen, Expand(first + m.welcome)));
  }

  /** After every byte of every input stream the row under the cursor reads the prompt and the line in
      the buffer, and nothing else, wherever the terminal's cursor was before boot. */
  lemma {:induction false} ScreenAgreesWithBuffer(screen: Screen, m: Messages, inputs: seq<Option<char>>)
    requires screen.mode == Ground && BlankBelow(screen)
    ensures Shows(Render(screen, Output(m, inputs)), PROMPT + Run(inputs).line)
  {
    if inputs == [] {
      BootShowsPrompt(screen, m);
      assert PROMPT + "" == PROMPT;
    } else {
      var front := inputs[..|inputs| - 1];
      ScreenAgreesWithBuffer(screen, m, front);
      RunStaysValid(front);
      RenderAppend(screen, Output(m, front), Run(front).Tick().Emits(m, inputs[|inputs| - 1]));
      PollKeepsScreen(Render(screen, Output(m, front)), m, Run(front).Tick(), inputs[|inputs| - 1]);
    }
  }

  lemma EnterIsSent(m: Messages, inputs: seq<Option<char>>, enter: char)
    requires IsNewline(enter)
    ensures Output(m, inputs + [Some(enter)]) == Output(m, inputs) + Run(inputs).Tick().EnterEmits(m)
  {
    assert (inputs + [Some(enter)])[..|inputs|] == inputs;
  }

  /** What stands on the screen when Enter is pressed is what is executed: it is logged, and the reply sent
      is the reply to it. */
  lemma ShownIsExecuted(screen: Screen, m: Messages, inputs: seq<Option<char>>, enter: char, text: string)
    requires screen.mode == Ground && BlankBelow(screen) && IsNewline(enter)
    requires Shows(Render(screen, Output(m, inputs)), PROMPT + text)
    ensures Run(inputs + [Some(enter)]).executed == Run(inputs).executed + [text]
    ensures Output(m, inputs + [Some(enter)]) ==
            Output(m, inputs) + Expand("\n" + Reply(m, text, Run(inputs).Tick().ticks) + PROMPT)
  {
    ScreenAgreesWithBuffer(screen, m, inputs);
    assert text == (PROMPT + text)[|PROMPT|..] == (PROMPT + Run(inputs).line)[|PROMPT|..] == Run(inputs).line;
    assert (inputs + [Some(enter)])[..|inputs|] == inputs;
    EnterIsSent(m, inputs, enter);
  }

  // ---------------------------------------------------------------- the tick counter

  lemma NextModulo(n: nat)
    ensures (n + 1) % 0x1_0000_0000 == if n % 0x1_0000_0000 == 0xFFFF_FFFF then 0 else n % 0x1_0000_0000 + 1
  {
  }

  lemma TurnTicks(shell: Shell, input: Option<char>)
    ensures shell.Turn(input).ticks == if shell.ticks == 0xFFFF_FFFF then 0 else shell.ticks + 1
  {
  }

  lemma {:induction false} TicksCountTurns(inputs: seq<Option<char>>)
    ensures Run(inputs).ticks == |inputs| % 0x1_0000_0000
  {
    if inputs != [] {
      var front := inputs[..|inputs| - 1];
      TicksCountTurns(front);
      TurnTicks(Run(front), inputs[|inputs| - 1]);
      NextModulo(|front|);
    }
  }

  lemma UptimeReply(m: Messages, ticks: nat)
    ensures Reply(m, "uptime", ticks) == UPTIME + Decimal(ticks) + "\n"
  {
    assert |"uptime"| == 6 && "uptime"[0] != "echo "[0];
  }

  /** What is sent when "uptime" is entered and the number printed is `printed`. */
  function UptimeAnswer(printed: string): string {
    Expand("\n" + (UPTIME + printed + "\n") + PROMPT)
  }

  lemma UptimeEmits(m: Messages, shell: Shell) returns (printed: string)
    requires shell.line == "uptime"
    ensures shell.EnterEmits(m) == UptimeAnswer(printed)
    ensures Canonical(printed) && Parse(printed) == shell.ticks
  {
    printed := Decimal(shell.ticks);
    UptimeReply(m, shell.ticks);
    PrintThenParse(shell.ticks);
    PrintsCanonically(shell.ticks);
  }

  lemma NextTick(inputs: seq<Option<char>>)
    ensures Run(inputs).Tick().ticks == (|inputs| + 1) % 0x1_0000_0000
    ensures Run(inputs).Tick().line == Run(inputs).line
  {
    TicksCountTurns(inputs);
    NextModulo(|inputs|);
  }

  /** When "uptime" is entered the number printed is in canonical notation and reads back as the number
      of turns of the main loop, this one included, modulo the width of the counter. */
  lemma UptimeReadsBack(m: Messages, inputs: seq<Option<char>>, enter: char) returns (printed: string)
    requires Run(inputs).line == "uptime" && IsNewline(enter)
    ensures Output(m, inputs + [Some(enter)]) == Output(m, inputs) + UptimeAnswer(printed)
    ensures Canonical(printed) && Parse(printed) == (|inputs| + 1) % 0x1_0000_0000
  {
    EnterIsSent(m, inputs, enter);
    NextTick(inputs);
    printed := UptimeEmits(m, Run(inputs).Tick());
  }
}
