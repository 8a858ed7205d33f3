/** What the console does with each byte, and what it answers to each line, told without its own tests: by
    literal bytes, and by a table from command words to texts. */
module ConsoleAnswers {
  import opened Words
  import opened Texts
  import opened Decimals
  import opened Terminal
  import opened Consoles
  import opened ConsoleRuns

  // ---------------------------------------------------------------- one byte

  lemma RunSnoc(inputs: seq<Option<char>>, input: Option<char>)
    ensures Run(inputs + [input]) == Run(inputs).Turn(input)
  {
    assert (inputs + [input])[..|inputs|] == inputs;
  }

  lemma OutputSnoc(m: Messages, inputs: seq<Option<char>>, input: Option<char>)
    ensures Output(m, inputs + [input]) == Output(m, inputs) + Run(inputs).Tick().Emits(m, input)
  {
    assert (inputs + [input])[..|inputs|] == inputs;
  }

  /** The line is handed over to be executed, and the next one starts. */
  ghost predicate Executes(y: Shell, y': Shell) {
    y'.executed == y.executed + [y.line] && y'.line == ""
  }

  ghost predicate Shortens(y: Shell, y': Shell) {
    y'.executed == y.executed && y.line != "" && y'.line == y.line[..|y.line| - 1]
  }

  ghost predicate Grows(y: Shell, y': Shell, c: char) {
    y'.executed == y.executed && y'.line == y.line + [c]
  }

  ghost predicate Keeps(y: Shell, y': Shell) {
    y'.executed == y.executed && y'.line == y.line
  }

  /** In every reachable state: 13 or 10 executes the line, 8 or 127 takes its last character, 32 to 126
      are added while there is room, and every other byte, like no byte at all, changes nothing. */
  lemma ByteByByte(inputs: seq<Option<char>>, c: char)
    ensures var (y, y', b) := (Run(inputs), Run(inputs + [Some(c)]), c as int);
      && (Executes(y, y') <==> b == 13 || b == 10)
      && (Shortens(y, y') <==> (b == 8 || b == 127) && y.line != "")
      && (Grows(y, y', c) <==> 32 <= b <= 126 && |y.line| < 159)
      && (Executes(y, y') || Shortens(y, y') || Grows(y, y', c) || Keeps(y, y'))
    ensures Keeps(Run(inputs), Run(inputs + [None]))
  {
    RunSnoc(inputs, Some(c));
    RunSnoc(inputs, None);
  }

  /** What one poll sends for a byte other than 13 and 10. */
  function Echo(line: string, c: char): string {
    if c as int == 8 || c as int == 127 then (if line == "" then "" else ['\U{08}', ' ', '\U{08}'])
    else if 32 <= c as int <= 126 && |line| < 159 then [c]
    else ""
  }

  lemma EmitsEcho(m: Messages, shell: Shell, c: char)
    requires c as int != 13 && c as int != 10
    ensures shell.Emits(m, Some(c)) == Echo(shell.line, c)
  {
    RuboutIsSent();
  }

  /** What is sent for each byte but 13 and 10: back, blank, back for a character taken, the character
      itself for one added, and nothing otherwise. */
  lemma ByteIsSent(m: Messages, inputs: seq<Option<char>>, c: char)
    requires c as int != 13 && c as int != 10
    ensures Output(m, inputs + [Some(c)]) == Output(m, inputs) + Echo(Run(inputs).line, c)
    ensures Output(m, inputs + [None]) == Output(m, inputs)
  {
    OutputSnoc(m, inputs, Some(c));
    OutputSnoc(m, inputs, None);
    EmitsEcho(m, Run(inputs).Tick(), c);
  }

  lemma ExpandFour(a: string, b: string, c: string, d: string)
    ensures Expand(a + b + c + d) == Expand(a) + Expand(b) + Expand(c) + Expand(d)
  {
    ExpandAppend(a + b + c, d);
    ExpandAppend(a + b, c);
    ExpandAppend(a, b);
  }

  lemma PromptIsSent()
    ensures Expand(PROMPT) == "nova> "
  {
    assert '\n' !in PROMPT;
    ExpandWithoutNewline(PROMPT);
  }

  /** What is sent before the first byte. */
  lemma FirstIsGreeting(m: Messages)
    ensures Output(m, []) == "\n\r" + Expand(m.booted) + Expand(m.welcome) + "nova> "
  {
    ExpandFour("\n", m.booted, m.welcome, PROMPT);
    ExpandOne('\n');
    PromptIsSent();
  }

  // ---------------------------------------------------------------- one line

  datatype Entry = Entry(word: string, text: string)

  /** The command words and what they answer. */
  function Table(m: Messages, ticks: nat): seq<Entry> {
    [Entry("help", m.help), Entry("info", m.infoKernel + m.infoLayers + m.infoBoot),
     Entry("uname", UnameText()), Entry("ps", PsText()), Entry("syscalls", m.syscalls),
     Entry("devices", m.devices), Entry("posix", m.posix), Entry("clear", "\U{1B}[2J\U{1B}[H"),
     Entry("uptime", "uptime ticks: " + Decimal(ticks) + "\n")]
  }

  function UnameText(): string {
    "NovaOS qemu0 3.1.0-prototype " + "Rapid Kernel Phase 3.1 i386-qemu\n"
  }

  function PsRow(i: nat): string
    requires i < 4
  {
    ["0   running kernel\n", "1   ready init\n", "2   ready novakitd\n", "3   running shell\n"][i]
  }

  function PsText(): string {
    "PID STATE   COMMAND\n" + PsRow(0) + PsRow(1) + PsRow(2) + PsRow(3)
  }

  lemma FirstNames()
    ensures SYSNAME + " " + NODENAME + " " + RELEASE + " " == "NovaOS qemu0 3.1.0-prototype "
  {
  }

  lemma LastNames()
    ensures VERSION + " " + MACHINE + "\n" == "Rapid Kernel Phase 3.1 i386-qemu\n"
  {
  }

  lemma Halve(before: string, a: string, b: string, c: string, d: string, e: string)
    ensures before + a + b + c + d + e == (before + a) + (b + c + d + e)
  {
  }

  lemma UnameIsText()
    ensures Uname() == UnameText()
  {
    FirstNames();
    LastNames();
    Halve(SYSNAME + " " + NODENAME + " " + RELEASE, " ", VERSION, " ", MACHINE, "\n");
  }

  lemma Regroup(before: string, a: string, b: string, c: string, d: string, e: string, f: string)
    ensures before + a + b + c + d + e + f == before + (a + b + c + d + e + f)
  {
  }

  lemma TaskIs(i: nat)
    requires i < 4
    ensures Decimal(TASKS[i].pid) == ["0", "1", "2", "3"][i]
    ensures TASKS[i].state == ["running", "ready", "ready", "running"][i]
    ensures TASKS[i].name == ["kernel", "init", "novakitd", "shell"][i]
  {
  }

  lemma KernelRow()
    ensures "0" + "   " + "running" + " " + "kernel" + "\n" == "0   running kernel\n"
  {
  }

  lemma InitRow()
    ensures "1" + "   " + "ready" + " " + "init" + "\n" == "1   ready init\n"
  {
  }

  lemma NovakitdRow()
    ensures "2" + "   " + "ready" + " " + "novakitd" + "\n" == "2   ready novakitd\n"
  {
  }

  lemma ShellRow()
    ensures "3" + "   " + "running" + " " + "shell" + "\n" == "3   running shell\n"
  {
  }

  lemma RowIsText(i: nat)
    requires i < 4
    ensures Decimal(TASKS[i].pid) + "   " + TASKS[i].state + " " + TASKS[i].name + "\n" == PsRow(i)
  {
    TaskIs(i);
    if i == 0 { KernelRow(); } else if i == 1 { InitRow(); } else if i == 2 { NovakitdRow(); } else { ShellRow(); }
  }

  lemma PsGrows(i: nat)
    requires i < 4
    ensures Ps(i + 1) == Ps(i) + PsRow(i)
  {
    var t := TASKS[i];
    RowIsText(i);
    Regroup(Ps(i), Decimal(t.pid), "   ", t.state, " ", t.name, "\n");
  }

  lemma PsIsText()
    ensures Ps(4) == PsText()
  {
    PsGrows(0);
    PsGrows(1);
    PsGrows(2);
    PsGrows(3);
  }

  /** The line is one of the command words. */
  ghost predicate IsWord(line: string) {
    line in ["help", "info", "uname", "ps", "syscalls", "devices", "posix", "clear", "uptime"]
  }

  lemma EarlyReplies(m: Messages, ticks: nat)
    ensures Reply(m, "help", ticks) == m.help
    ensures Reply(m, "info", ticks) == m.infoKernel + m.infoLayers + m.infoBoot
    ensures Reply(m, "uname", ticks) == Uname()
    ensures Reply(m, "ps", ticks) == Ps(4)
  {
    assert "info"[0] != "help"[0] && "uname"[0] != "help"[0] && "uname"[0] != "info"[0];
    assert "ps"[0] != "help"[0] && "ps"[0] != "info"[0] && "ps"[0] != "uname"[0];
  }

  /** A line that gets past the first four words and is not an echo. */
  lemma LateReply(m: Messages, ticks: nat, line: string)
    requires |line| > 2 && line[0] != 'h' && line[0] != 'i' && line[0] != 'e' && (line[0] == 'u' ==> line[1] != 'n')
    ensures Reply(m, line, ticks) == ReplyRest(m, line, ticks)
  {
    assert "help"[0] == 'h' && "info"[0] == 'i' && "uname"[0] == 'u' && "uname"[1] == 'n' && "echo "[0] == 'e';
  }

  lemma MiddleReplies(m: Messages, ticks: nat)
    ensures Reply(m, "syscalls", ticks) == m.syscalls
    ensures Reply(m, "devices", ticks) == m.devices
    ensures Reply(m, "posix", ticks) == m.posix
  {
    LateReply(m, ticks, "syscalls");
    LateReply(m, ticks, "devices");
    LateReply(m, ticks, "posix");
    assert "devices"[0] != "syscalls"[0] && "posix"[0] != "syscalls"[0] && "posix"[0] != "devices"[0];
  }

  lemma LastReplies(m: Messages, ticks: nat)
    ensures Reply(m, "clear", ticks) == "\U{1B}[2J\U{1B}[H"
    ensures Reply(m, "uptime", ticks) == "uptime ticks: " + Decimal(ticks) + "\n"
  {
    LateReply(m, ticks, "clear");
    LateReply(m, ticks, "uptime");
    assert "clear"[0] != "syscalls"[0] && "clear"[0] != "devices"[0] && "clear"[0] != "posix"[0];
    assert "uptime"[0] != "syscalls"[0] && "uptime"[0] != "devices"[0] && "uptime"[0] != "posix"[0];
    assert "uptime"[0] != "clear"[0];
  }

  /** The line is answered with this text. */
  ghost predicate Answered(m: Messages, ticks: nat, e: Entry) {
    Reply(m, e.word, ticks) == e.text
  }

  lemma EarlyWords(m: Messages, ticks: nat)
    ensures Answered(m, ticks, Entry("help", m.help))
    ensures Answered(m, ticks, Entry("info", m.infoKernel + m.infoLayers + m.infoBoot))
    ensures Answered(m, ticks, Entry("uname", UnameText())) && Answered(m, ticks, Entry("ps", PsText()))
  {
    UnameIsText();
    PsIsText();
    EarlyReplies(m, ticks);
  }

  lemma MiddleWords(m: Messages, ticks: nat)
    ensures Answered(m, ticks, Entry("syscalls", m.syscalls)) && Answered(m, ticks, Entry("devices", m.devices))
    ensures Answered(m, ticks, Entry("posix", m.posix))
  {
    MiddleReplies(m, ticks);
  }

  lemma LastWords(m: Messages, ticks: nat)
    ensures Answered(m, ticks, Entry("clear", "\U{1B}[2J\U{1B}[H"))
    ensures Answered(m, ticks, Entry("uptime", "uptime ticks: " + Decimal(ticks) + "\n"))
  {
    LastReplies(m, ticks);
  }

  lemma EveryEntryIsAnswered(m: Messages, ticks: nat, k: nat)
    requires k < |Table(m, ticks)|
    ensures Answered(m, ticks, Table(m, ticks)[k])
  {
    if k < 4 { EarlyEntry(m, ticks, k); } else if k < 7 { MiddleEntry(m, ticks, k); } else { LastEntry(m, ticks, k); }
  }

  lemma EarlyEntry(m: Messages, ticks: nat, k: nat)
    requires k < 4
    ensures Answered(m, ticks, Table(m, ticks)[k])
  {
    EarlyWords(m, ticks);
  }

  lemma MiddleEntry(m: Messages, ticks: nat, k: nat)
    requires 4 <= k < 7
    ensures Answered(m, ticks, Table(m, ticks)[k])
  {
    MiddleWords(m, ticks);
  }

  lemma LastEntry(m: Messages, ticks: nat, k: nat)
    requires 7 <= k < 9
    ensures Answered(m, ticks, Table(m, ticks)[k])
  {
    LastWords(m, ticks);
  }

  lemma ReplyToEcho(m: Messages, ticks: nat, s: string)
    ensures Reply(m, "echo " + s, ticks) == s + "\n"
  {
    var line := "echo " + s;
    assert line[0] == 'e' && "echo " <= line && line[5..] == s;
    assert "help"[0] == 'h' && "info"[0] == 'i' && "uname"[0] == 'u' && "ps"[0] == 'p';
  }

  lemma ReplyToOther(m: Messages, ticks: nat, line: string)
    requires !IsWord(line) && !("echo " <= line)
    ensures Reply(m, line, ticks) == if line == "" then "" else m.unknown
  {
  }

  lemma WordIsListed(m: Messages, ticks: nat, line: string) returns (k: nat)
    requires IsWord(line)
    ensures k < |Table(m, ticks)| && Table(m, ticks)[k].word == line
  {
    var words := ["help", "info", "uname", "ps", "syscalls", "devices", "posix", "clear", "uptime"];
    k :| k < |words| && words[k] == line;
  }

  /** Neither a word nor an echo nor nothing. */
  ghost predicate Unknown(line: string) {
    line != "" && !IsWord(line) && !("echo " <= line)
  }

  /** The unknown-command message is part of the answer exactly for such a line: with another wording of
      it the answer would differ. */
  lemma UnknownExactly(m: Messages, ticks: nat, line: string, wording: Lines)
    requires wording != m.unknown
    ensures Reply(m.(unknown := wording), line, ticks) != Reply(m, line, ticks) <==> Unknown(line)
  {
    var m' := m.(unknown := wording);
    if IsWord(line) {
      var k := WordIsListed(m, ticks, line);
      EveryEntryIsAnswered(m, ticks, k);
      EveryEntryIsAnswered(m', ticks, k);
      assert Table(m, ticks)[k] == Table(m', ticks)[k];
    } else if "echo " <= line {
      assert line == "echo " + line[5..];
      ReplyToEcho(m, ticks, line[5..]);
      ReplyToEcho(m', ticks, line[5..]);
    } else {
      ReplyToOther(m, ticks, line);
      ReplyToOther(m', ticks, line);
    }
  }

  /** Entering the line sends a newline, this answer and the prompt. */
  ghost predicate Sends(m: Messages, inputs: seq<Option<char>>, enter: char, answer: string) {
    Output(m, inputs + [Some(enter)]) == Output(m, inputs) + Expand("\n" + answer + "nova> ")
  }

  lemma EnterSendsReply(m: Messages, inputs: seq<Option<char>>, enter: char)
    requires enter as int == 13 || enter as int == 10
    ensures Sends(m, inputs, enter, Reply(m, Run(inputs).line, (|inputs| + 1) % 0x1_0000_0000))
  {
    EnterIsSent(m, inputs, enter);
    NextTick(inputs);
  }

  lemma WordIsAnswered(m: Messages, inputs: seq<Option<char>>, enter: char, k: nat)
    requires enter as int == 13 || enter as int == 10
    requires k < |Table(m, (|inputs| + 1) % 0x1_0000_0000)|
    requires Table(m, (|inputs| + 1) % 0x1_0000_0000)[k].word == Run(inputs).line
    ensures Sends(m, inputs, enter, Table(m, (|inputs| + 1) % 0x1_0000_0000)[k].text)
  {
    EnterSendsReply(m, inputs, enter);
    EveryEntryIsAnswered(m, (|inputs| + 1) % 0x1_0000_0000, k);
  }

  lemma EchoIsAnswered(m: Messages, inputs: seq<Option<char>>, enter: char, s: string)
    requires enter as int == 13 || enter as int == 10
    requires Run(inputs).line == "echo " + s
    ensures Sends(m, inputs, enter, s + "\n")
  {
    EnterSendsReply(m, inputs, enter);
    ReplyToEcho(m, (|inputs| + 1) % 0x1_0000_0000, s);
  }

  lemma OtherIsAnswered(m: Messages, inputs: seq<Option<char>>, enter: char)
    requires enter as int == 13 || enter as int == 10
    requires Run(inputs).line == "" || Unknown(Run(inputs).line)
    ensures Sends(m, inputs, enter, if Run(inputs).line == "" then "" else m.unknown)
  {
    EnterSendsReply(m, inputs, enter);
    ReplyToOther(m, (|inputs| + 1) % 0x1_0000_0000, Run(inputs).line);
  }

  lemma WordsAreTheTable(m: Messages, ticks: nat, line: string)
    ensures IsWord(line) <==> exists k :: 0 <= k < |Table(m, ticks)| && Table(m, ticks)[k].word == line
  {
    if IsWord(line) { var k := WordIsListed(m, ticks, line); }
  }

  /** What byte 13 or 10 sends after any inputs: for a word of the table its text, for "echo " and more
      the rest and a newline, for an empty line nothing, and for any other line the unknown-command
      message. */
  lemma EnterIsAnswered(m: Messages, inputs: seq<Option<char>>, enter: char)
    requires enter as int == 13 || enter as int == 10
    ensures var (line, table) := (Run(inputs).line, Table(m, (|inputs| + 1) % 0x1_0000_0000));
      && (forall k :: 0 <= k < |table| && table[k].word == line ==> Sends(m, inputs, enter, table[k].text))
      && (forall s: string :: line == "echo " + s ==> Sends(m, inputs, enter, s + "\n"))
      && (line == "" ==> Sends(m, inputs, enter, ""))
      && (Unknown(line) ==> Sends(m, inputs, enter, m.unknown))
  {
    var line, table := Run(inputs).line, Table(m, (|inputs| + 1) % 0x1_0000_0000);
    forall k | 0 <= k < |table| && table[k].word == line ensures Sends(m, inputs, enter, table[k].text) {
      WordIsAnswered(m, inputs, enter, k);
    }
    forall s: string | line == "echo " + s ensures Sends(m, inputs, enter, s + "\n") {
      EchoIsAnswered(m, inputs, enter, s);
    }
    if line == "" || Unknown(line) { OtherIsAnswered(m, inputs, enter); }
  }

  // ---------------------------------------------------------------- a typed line

  /** The text, typed character by character. */
  function Typed(text: string): seq<Option<char>> {
    seq(|text|, i requires 0 <= i < |text| => Some(text[i]))
  }

  lemma TypedSnoc(inputs: seq<Option<char>>, text: string, c: char)
    ensures inputs + Typed(text + [c]) == inputs + Typed(text) + [Some(c)]
  {
  }

  lemma TypedKey(m: Messages, inputs: seq<Option<char>>, c: char)
    requires Printable(c) && |Run(inputs).line| < 159
    ensures Run(inputs + [Some(c)]).line == Run(inputs).line + [c]
    ensures Output(m, inputs + [Some(c)]) == Output(m, inputs) + [c]
  {
    ByteByByte(inputs, c);
    ByteIsSent(m, inputs, c);
  }

  /** Printable text that fits, typed at an empty line, is echoed and becomes the line. */
  lemma {:induction false} TypedIsLine(m: Messages, inputs: seq<Option<char>>, text: string)
    requires Run(inputs).line == "" && AllPrintable(text) && |text| <= 159
    ensures Run(inputs + Typed(text)).line == text
    ensures Output(m, inputs + Typed(text)) == Output(m, inputs) + text
    decreases |text|
  {
    if text == "" {
      assert inputs + Typed(text) == inputs;
    } else {
      var front, c := text[..|text| - 1], text[|text| - 1];
      assert text == front + [c];
      TypedIsLine(m, inputs, front);
      TypedSnoc(inputs, front, c);
      TypedKey(m, inputs + Typed(front), c);
    }
  }

  /** Typing "echo " and a text, and then 13 or 10, sends back what was typed, the text on a line of its own,
      and the prompt. */
  lemma TypedEcho(m: Messages, inputs: seq<Option<char>>, text: string, enter: char)
    requires Run(inputs).line == "" && AllPrintable(text) && |text| <= 154
    requires enter as int == 13 || enter as int == 10
    ensures Output(m, inputs + Typed("echo " + text) + [Some(enter)]) ==
            Output(m, inputs) + ("echo " + text) + Expand("\n" + (text + "\n") + "nova> ")
  {
    TypedIsLine(m, inputs, "echo " + text);
    EnterIsAnswered(m, inputs + Typed("echo " + text), enter);
  }
}
