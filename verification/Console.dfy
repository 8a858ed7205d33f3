/** boot/kernel.c: the serial line editor, the command dispatcher and the printers behind them.

    `Shell` is the console as a value: the line being edited, the tick counter and the lines that were
    handed to `run_command`; `Emits` is what one poll sends to the serial port. The class `Console` is
    the in-place code over the 160-byte buffer, and each of its methods is proved to do just that. */
module Consoles {
  import opened Words
  import opened Texts
  import opened CStrings
  import opened Decimals
  import opened Terminal

  const BUFFER_SIZE: nat := 160
  const LINE_MAX: nat := BUFFER_SIZE - 1

  // ---------------------------------------------------------------- what a command answers

  function Uname(): string {
    SYSNAME + " " + NODENAME + " " + RELEASE + " " + VERSION + " " + MACHINE + "\n"
  }

  /** The table `ps` prints, up to its `n`-th row. */
  function Ps(n: nat): string
    requires n <= |TASKS|
  {
    if n == 0 then PS_HEADER
    else Ps(n - 1) + Decimal(TASKS[n - 1].pid) + "   " + TASKS[n - 1].state + " " + TASKS[n - 1].name + "\n"
  }

  function Reply(m: Messages, line: string, ticks: nat): string {
    if line == "help" then m.help
    else if line == "info" then m.infoKernel + m.infoLayers + m.infoBoot
    else if line == "uname" then Uname()
    else if line == "ps" then Ps(|TASKS|)
    else if "echo " <= line then line[5..] + "\n"
    else ReplyRest(m, line, ticks)
  }

  function ReplyRest(m: Messages, line: string, ticks: nat): string {
    if line == "syscalls" then m.syscalls
    else if line == "devices" then m.devices
    else if line == "posix" then m.posix
    else ReplyLast(m, line, ticks)
  }

  function ReplyLast(m: Messages, line: string, ticks: nat): string {
    if line == "clear" then CLEAR
    else if line == "uptime" then UPTIME + Decimal(ticks) + "\n"
    else if line != "" then m.unknown
    else ""
  }

  // ---------------------------------------------------------------- the console as a value

  predicate IsNewline(c: char) { c == '\r' || c == '\n' }

  predicate IsRubout(c: char) { c == BS || c == DEL }

  datatype Shell = Shell(line: string, ticks: Word32, executed: seq<string>) {

    function Enter(): Shell {
      Shell("", ticks, executed + [line])
    }

    function Backspace(): Shell {
      if line == "" then this else this.(line := line[..|line| - 1])
    }

    function Poll(input: Option<char>): Shell {
      match input
      case None => this
      case Some(c) =>
        if IsNewline(c) then Enter()
        else if IsRubout(c) then Backspace()
        else if Printable(c) && |line| < LINE_MAX then this.(line := line + [c])
        else this
    }

    function Tick(): Shell {
      this.(ticks := if ticks == 0xFFFF_FFFF then 0 else ticks + 1)
    }

    /** One iteration of the main loop. */
    function Turn(input: Option<char>): Shell {
      Tick().Poll(input)
    }

    function EnterEmits(m: Messages): string {
      Expand("\n" + Reply(m, line, ticks) + PROMPT)
    }

    function BackspaceEmits(): string {
      if line == "" then "" else Expand(RUBOUT)
    }

    /** What the serial port is sent while `Poll(input)` is computed. */
    function Emits(m: Messages, input: Option<char>): string {
      match input
      case None => ""
      case Some(c) =>
        if IsNewline(c) then EnterEmits(m)
        else if IsRubout(c) then BackspaceEmits()
        else if Printable(c) && |line| < LINE_MAX then Putc(c)
        else ""
    }

    predicate Valid() {
      |line| <= LINE_MAX && AllPrintable(line)
    }
  }

  const START := Shell("", 0, [])

  function Greeting(m: Messages): string {
    Expand("\n" + m.booted + m.welcome + PROMPT)
  }

  // ---------------------------------------------------------------- the code

  class Console {
    const messages: Messages
    const command: array<char>
    var commandLength: nat
    var ticks: Word32
    var out: string
    ghost var executed: seq<string>

    ghost predicate Valid() reads this, command {
      && command.Length == BUFFER_SIZE && commandLength <= LINE_MAX
      && AllPrintable(command[..commandLength])
    }

    ghost function State(): Shell
      requires commandLength <= command.Length
      reads this, command
    {
      Shell(command[..commandLength], ticks, executed)
    }

    /** The start of `kmain`, up to its loop; `memory` is the static buffer. */
    constructor (messages: Messages, memory: seq<char>)
      requires |memory| == BUFFER_SIZE
      ensures Valid() && fresh(command)
      ensures State() == START && out == Greeting(messages) && this.messages == messages
    {
      command := new char[BUFFER_SIZE](i requires 0 <= i < BUFFER_SIZE => memory[i]);
      this.messages, commandLength, ticks, out, executed := messages, 0, 0, "", [];
      new;
      PlainHasNoNul("\n" + messages.booted);
      PlainHasNoNul(messages.welcome);
      Begin("\n" + messages.booted);
      Say(messages.welcome, "", "\n" + messages.booted);
      SentMore("", "\n" + messages.booted + messages.welcome, out, PROMPT);
      SerialPrompt();
      assert "" + Greeting(messages) == Greeting(messages);
    }

    method SerialPutc(value: char)
      modifies `out
      ensures out == old(out) + Putc(value)
      decreases value == '\n'
    {
      out := out + [value];
      if value == '\n' {
        SerialPutc('\r');
      }
    }

    /** Fills the digits from the low end and drains them in reverse. */
    method WriteUnsigned(value: Word64)
      modifies `out
      ensures out == old(out) + Decimal(value)
    {
      if value == 0 {
        SerialPutc('0');
        return;
      }
      var digits := new char[20](i => ' ');
      var length := FillDigits(digits, value);
      DrainDigits(digits, length, Decimal(value));
    }

    /** The first loop of `write_unsigned`: the digits of `value`, lowest first. The guard on the length
        never ends it. */
    static method FillDigits(digits: array<char>, value: Word64) returns (length: nat)
      requires value != 0 && digits.Length == 20
      modifies digits
      ensures length == |Decimal(value)| <= digits.Length
      ensures forall i :: 0 <= i < length ==> digits[i] == Decimal(value)[length - 1 - i]
    {
      ghost var all := Decimal(value);
      var rest: nat := value;
      length := 0;
      TwentyDigits(value);
      while rest != 0 && length < digits.Length
        invariant length <= |all| <= digits.Length
        invariant rest != 0 ==> length < |all| && Decimal(rest) == all[..|all| - length]
        invariant rest == 0 ==> length == |all|
        invariant forall i :: 0 <= i < length ==> digits[i] == all[|all| - 1 - i]
        decreases rest
      {
        assert Decimal(rest)[|Decimal(rest)| - 1] == Digit(rest % 10);
        digits[length] := '0' + (rest % 10) as char;
        length := length + 1;
        rest := rest / 10;
      }
    }

    /** The second loop: the digits are sent from the highest down. */
    method DrainDigits(digits: array<char>, count: nat, ghost all: string)
      requires count == |all| <= digits.Length
      requires forall i :: 0 <= i < count ==> digits[i] == all[count - 1 - i]
      requires forall i :: 0 <= i < count ==> IsDigit(all[i])
      modifies `out
      ensures out == old(out) + all
    {
      var length: nat := count;
      assert out + all[..0] == out;
      while length != 0
        invariant length <= count
        invariant forall i :: 0 <= i < length ==> digits[i] == all[count - 1 - i]
        invariant out == old(out) + all[..count - length]
      {
        length := length - 1;
        ghost var sent := all[..count - length - 1];
        assert all[..count - length] == sent + [digits[length]];
        Associate(old(out), sent, [digits[length]]);
        SerialPutc(digits[length]);
      }
      assert all[..count] == all;
    }

    /** `sys_write`: the length is measured first, then that many characters are sent. */
    method SysWrite(text: seq<char>)
      requires '\0' in text
      modifies `out
      ensures out == old(out) + Expand(Str(text))
    {
      ghost var s := Str(text);
      var length := Strlen(text);
      for i := 0 to length
        invariant Sent(old(out), s[..i], out)
      {
        assert s[..i + 1] == s[..i] + [text[i]];
        SentMore(old(out), s[..i], out, [text[i]]);
        ExpandOne(text[i]);
        SerialPutc(text[i]);
      }
      assert s[..length] == s;
    }

    method SerialPrompt()
      modifies `out
      ensures out == old(out) + Expand(PROMPT)
    {
      SysWrite(Lit(PROMPT));
    }

    /** Whether the buffer, as a C string, is `expected`. */
    method CommandIs(expected: seq<char>) returns (r: bool)
      requires '\0' in command[..] && '\0' in expected
      ensures r <==> Str(command[..]) == Str(expected)
    {
      ghost var line, word := Str(command[..]), Str(expected);
      var index := 0;
      while expected[index] != '\0' && command[index] == expected[index]
        invariant index <= |word| && index <= |line|
        invariant index < |expected| && index < command.Length
        invariant line[..index] == word[..index]
        decreases |expected| - index
      {
        assert line[..index + 1] == line[..index] + [command[index]];
        assert word[..index + 1] == word[..index] + [expected[index]];
        index := index + 1;
      }
      r := expected[index] == '\0' && command[index] == '\0';
      if !r && index < |line| && index < |word| {
        assert line[index] != word[index];
      }
    }

    /** `sys_write` of a literal, as the next piece of a longer text. */
    method Say(text: string, ghost start: string, ghost said: string)
      requires '\0' !in text && Sent(start, said, out)
      modifies `out
      ensures Sent(start, said + text, out)
    {
      SentMore(start, said, out, text);
      SysWrite(Lit(text));
    }

    /** `write_unsigned`, as the next piece of a longer text. */
    method SayNumber(value: Word64, ghost start: string, ghost said: string)
      requires Sent(start, said, out)
      modifies `out
      ensures Sent(start, said + Decimal(value), out)
    {
      SentMore(start, said, out, Decimal(value));
      ExpandDigits(Decimal(value));
      WriteUnsigned(value);
    }

    /** The first piece of a text. */
    method Begin(text: string)
      requires '\0' !in text
      modifies `out
      ensures Sent(old(out), text, out)
    {
      SysWrite(Lit(text));
    }

    method PrintUname()
      modifies `out
      ensures Sent(old(out), Uname(), out)
    {
      ghost var start := out;
      Begin(SYSNAME);
      Say(" ", start, SYSNAME);
      Say(NODENAME, start, SYSNAME + " ");
      Say(" ", start, SYSNAME + " " + NODENAME);
      Say(RELEASE, start, SYSNAME + " " + NODENAME + " ");
      PrintVersion(start, SYSNAME + " " + NODENAME + " " + RELEASE);
    }

    method PrintVersion(ghost start: string, ghost said: string)
      requires Sent(start, said, out)
      modifies `out
      ensures Sent(start, said + " " + VERSION + " " + MACHINE + "\n", out)
    {
      Say(" ", start, said);
      Say(VERSION, start, said + " ");
      Say(" ", start, said + " " + VERSION);
      Say(MACHINE, start, said + " " + VERSION + " ");
      Say("\n", start, said + " " + VERSION + " " + MACHINE);
    }

    method PrintPs()
      modifies `out
      ensures Sent(old(out), Ps(|TASKS|), out)
    {
      ghost var start := out;
      Begin(PS_HEADER);
      for i := 0 to |TASKS|
        invariant Sent(start, Ps(i), out)
      {
        PrintTask(i, start);
      }
    }

    method PrintTask(i: nat, ghost start: string)
      requires i < |TASKS| && Sent(start, Ps(i), out)
      modifies `out
      ensures Sent(start, Ps(i + 1), out)
    {
      TasksArePrintable(i);
      SayNumber(TASKS[i].pid, start, Ps(i));
      ghost var said := Ps(i) + Decimal(TASKS[i].pid);
      Say("   ", start, said);
      Say(TASKS[i].state, start, said + "   ");
      Say(" ", start, said + "   " + TASKS[i].state);
      Say(TASKS[i].name, start, said + "   " + TASKS[i].state + " ");
      Say("\n", start, said + "   " + TASKS[i].state + " " + TASKS[i].name);
    }

    method PrintInfo()
      modifies `out
      ensures Sent(old(out), messages.infoKernel + messages.infoLayers + messages.infoBoot, out)
    {
      ghost var start := out;
      PlainHasNoNul(messages.infoKernel);
      PlainHasNoNul(messages.infoLayers);
      PlainHasNoNul(messages.infoBoot);
      Begin(messages.infoKernel);
      Say(messages.infoLayers, start, messages.infoKernel);
      Say(messages.infoBoot, start, messages.infoKernel + messages.infoLayers);
    }

    method PrintUptime()
      modifies `out
      ensures Sent(old(out), UPTIME + Decimal(ticks) + "\n", out)
    {
      ghost var start := out;
      Begin(UPTIME);
      SayNumber(ticks, start, UPTIME);
      Say("\n", start, UPTIME + Decimal(ticks));
    }

    method PrintEcho()
      requires Valid() && command[commandLength] == '\0' && "echo " <= command[..commandLength]
      modifies `out
      ensures Sent(old(out), command[..commandLength][5..] + "\n", out)
    {
      ghost var start := out;
      EchoArgument();
      SysWrite(command[5..]);
      Say("\n", start, command[..commandLength][5..]);
    }

    /** `command_is` on the terminated line. */
    method Is(word: string) returns (r: bool)
      requires Valid() && command[commandLength] == '\0' && '\0' !in word
      ensures r <==> command[..commandLength] == word
    {
      LineIsString();
      r := CommandIs(Lit(word));
    }

    /** The chain of tests in `run_command`. */
    method Dispatch()
      requires Valid() && command[commandLength] == '\0'
      modifies `out
      ensures Sent(old(out), Reply(messages, command[..commandLength], ticks), out)
    {
      var hit := Is("help");
      if hit {
        PlainHasNoNul(messages.help);
        Begin(messages.help);
        return;
      }
      hit := Is("info");
      if hit {
        PrintInfo();
        return;
      }
      hit := Is("uname");
      if hit {
        PrintUname();
        return;
      }
      hit := Is("ps");
      if hit {
        PrintPs();
        return;
      }
      LineIsString();
      hit := StartsWith(command[..], Lit("echo "));
      if hit {
        PrintEcho();
        return;
      }
      DispatchRest();
    }

    method DispatchRest()
      requires Valid() && command[commandLength] == '\0'
      modifies `out
      ensures Sent(old(out), ReplyRest(messages, command[..commandLength], ticks), out)
    {
      var hit := Is("syscalls");
      if hit {
        PlainHasNoNul(messages.syscalls);
        Begin(messages.syscalls);
        return;
      }
      hit := Is("devices");
      if hit {
        PlainHasNoNul(messages.devices);
        Begin(messages.devices);
        return;
      }
      hit := Is("posix");
      if hit {
        PlainHasNoNul(messages.posix);
        Begin(messages.posix);
        return;
      }
      DispatchLast();
    }

    method DispatchLast()
      requires Valid() && command[commandLength] == '\0'
      modifies `out
      ensures Sent(old(out), ReplyLast(messages, command[..commandLength], ticks), out)
    {
      var hit := Is("clear");
      if hit {
        Begin(CLEAR);
        return;
      }
      hit := Is("uptime");
      if hit {
        PrintUptime();
        return;
      }
      if commandLength != 0 {
        PlainHasNoNul(messages.unknown);
        Begin(messages.unknown);
      }
    }

    /** The buffer, terminated, is the line: neither stale bytes behind it nor a NUL inside it matter. */
    lemma LineIsString()
      requires Valid() && command[commandLength] == '\0'
      ensures '\0' in command[..] && Str(command[..]) == command[..commandLength]
    {
      assert command[..][commandLength] == '\0';
      assert forall i :: 0 <= i < commandLength ==> command[i] == command[..commandLength][i];
    }

    lemma EchoArgument()
      requires Valid() && command[commandLength] == '\0' && "echo " <= command[..commandLength]
      ensures '\0' in command[5..] && Str(command[5..]) == command[..commandLength][5..]
    {
      var k := commandLength - 5;
      assert command[5..][k] == '\0';
      assert forall i :: 0 <= i < k ==> command[5..][i] == command[..commandLength][i + 5];
    }

    method RunCommand()
      requires Valid()
      modifies this, command
      ensures Valid()
      ensures State() == old(State()).Enter()
      ensures out == old(out) + old(State()).EnterEmits(messages)
    {
      ghost var line, start := command[..commandLength], out;
      command[commandLength] := '\0';
      assert command[..commandLength] == line;
      executed := executed + [line];
      SerialPutc('\n');
      ExpandOne('\n');
      SentMore(start, "\n", out, Reply(messages, line, ticks));
      Dispatch();
      commandLength := 0;
      SentMore(start, "\n" + Reply(messages, line, ticks), out, PROMPT);
      SerialPrompt();
    }

    method SerialBackspace()
      requires Valid()
      modifies this
      ensures Valid()
      ensures State() == old(State()).Backspace()
      ensures out == old(out) + old(State()).BackspaceEmits()
    {
      if commandLength == 0 {
        return;
      }
      assert command[..commandLength][..commandLength - 1] == command[..commandLength - 1];
      commandLength := commandLength - 1;
      Begin(RUBOUT);
    }

    method SerialPoll(input: Option<char>)
      requires Valid()
      modifies this, command
      ensures Valid()
      ensures State() == old(State()).Poll(input)
      ensures out == old(out) + old(State()).Emits(messages, input)
      ensures executed == old(executed) +
        if input.Some? && input.value as int in {13, 10} then [old(command[..commandLength])] else []
      ensures input.Some? && input.value as int in {8, 127} ==>
        commandLength == if old(commandLength) == 0 then 0 else old(commandLength) - 1
    {
      if input.None? {
        return;
      }
      var value := input.value;
      if value == '\r' || value == '\n' {
        RunCommand();
      } else if value == BS || value == DEL {
        SerialBackspace();
      } else if ' ' <= value <= '~' && commandLength < BUFFER_SIZE - 1 {
        ghost var line := command[..commandLength];
        command[commandLength] := value;
        commandLength := commandLength + 1;
        assert command[..commandLength] == line + [value];
        SerialPutc(value);
      }
    }

    /** One iteration of the loop in `kmain`. */
    method Turn(input: Option<char>)
      requires Valid()
      modifies this, command
      ensures Valid()
      ensures State() == old(State()).Turn(input)
      ensures out == old(out) + old(State()).Tick().Emits(messages, input)
    {
      ticks := if ticks == 0xFFFF_FFFF then 0 else ticks + 1;
      SerialPoll(input);
    }
  }

  /** `out` is `start` followed by what `sys_write` sends for `said`. */
  ghost predicate Sent(start: string, said: string, out: string) {
    out == start + Expand(said)
  }

  lemma SentMore(start: string, said: string, out: string, text: string)
    requires Sent(start, said, out)
    ensures Sent(start, said + text, out + Expand(text))
  {
    ExpandAppend(said, text);
    Associate(start, Expand(said), Expand(text));
  }

  lemma Associate(a: string, b: string, c: string)
    ensures (a + b) + c == a + (b + c)
  {
  }

  lemma ExpandDigits(s: string)
    requires forall i :: 0 <= i < |s| ==> IsDigit(s[i])
    ensures Expand(s) == s
  {
    assert '\n' !in s;
    ExpandWithoutNewline(s);
  }

  lemma TasksArePrintable(i: nat)
    requires i < |TASKS|
    ensures AllPrintable(TASKS[i].name) && '\0' !in TASKS[i].name
    ensures AllPrintable(TASKS[i].state) && '\0' !in TASKS[i].state
    ensures TASKS[i].pid < 4
  {
  }
}
