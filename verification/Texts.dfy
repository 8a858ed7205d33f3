/** The characters of the serial console and the texts of boot/kernel.c. */
module Texts {
  const ESC: char := '\U{1B}'
  const BS: char := '\U{08}'
  const DEL: char := '\U{7F}'

  const PROMPT: string := "nova> "
  const SYSNAME: string := "NovaOS"
  const NODENAME: string := "qemu0"
  const RELEASE: string := "3.1.0-prototype"
  const VERSION: string := "Rapid Kernel Phase 3.1"
  const MACHINE: string := "i386-qemu"
  const PS_HEADER: string := "PID STATE   COMMAND\n"
  const CLEAR: string := "\U{1B}[2J\U{1B}[H"
  const UPTIME: string := "uptime ticks: "
  const RUBOUT: string := "\U{08} \U{08}"

  datatype Task = Task(pid: nat, name: string, state: string)
  const TASKS: seq<Task> := [Task(0, "kernel", "running"), Task(1, "init", "ready"),
                             Task(2, "novakitd", "ready"), Task(3, "shell", "running")]

  predicate Printable(c: char) {
    ' ' <= c <= '~'
  }

  predicate AllPrintable(s: string) {
    forall i :: 0 <= i < |s| ==> Printable(s[i])
  }

  /** Printable characters and newlines only. */
  predicate Plain(s: string) {
    forall i :: 0 <= i < |s| ==> Printable(s[i]) || s[i] == '\n'
  }

  lemma PlainHasNoNul(s: string)
    requires Plain(s)
    ensures '\0' !in s
  {
  }

  /** Plain text that leaves the cursor at the start of a line. */
  predicate WholeLines(s: string) {
    Plain(s) && (s == "" || s[|s| - 1] == '\n')
  }

  lemma PlainAppend(s: string, t: string)
    requires Plain(s) && Plain(t)
    ensures Plain(s + t)
  {
  }

  lemma WholeLinesAppend(s: string, t: string)
    requires Plain(s) && t != "" && WholeLines(t)
    ensures WholeLines(s + t)
  {
  }

  lemma WholeLinesConcat(s: string, t: string)
    requires WholeLines(s) && WholeLines(t)
    ensures WholeLines(s + t)
  {
    if t == "" { assert s + t == s; } else { WholeLinesAppend(s, t); }
  }

  type Lines = s: string | WholeLines(s) witness ""

  /** The messages whose wording nothing depends on. All that is asked of them is what they are: whole
      lines of printable characters. `booted` is the banner behind its leading newline. */
  datatype Messages = Messages(booted: Lines, welcome: Lines, help: Lines,
                               infoKernel: Lines, infoLayers: Lines, infoBoot: Lines,
                               syscalls: Lines, devices: Lines, posix: Lines, unknown: Lines)
}
