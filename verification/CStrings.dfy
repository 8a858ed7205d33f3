/** NUL-terminated strings: the helpers of boot/kernel.c that scan memory up to a terminator.
    Memory is a `seq<char>` from the pointer on, so bytes after the terminator are part of it. */
module CStrings {

  /** The first NUL at or after `from`; `|text|` when there is none. */
  function NulAt(text: seq<char>, from: nat := 0): (r: nat)
    requires from <= |text|
    ensures from <= r <= |text|
    ensures r < |text| ==> text[r] == '\0'
    ensures forall i :: from <= i < r ==> text[i] != '\0'
    decreases |text| - from
  {
    if from == |text| || text[from] == '\0' then from else NulAt(text, from + 1)
  }

  /** The string that a pointer to this memory denotes. */
  function Str(text: seq<char>): string {
    text[..NulAt(text)]
  }

  /** Memory that holds exactly `s` and its terminator, as a string literal does. */
  function Lit(s: string): (memory: seq<char>)
    ensures '\0' in memory
    ensures '\0' !in s ==> Str(memory) == s
  {
    var memory := s + ['\0'];
    assert memory[|s|] == '\0';
    assert forall i :: 0 <= i < |s| ==> memory[i] in s;
    memory
  }

  method Strlen(text: seq<char>) returns (length: nat)
    requires '\0' in text
    ensures length < |text| && length == |Str(text)|
  {
    length := 0;
    while text[length] != '\0'
      invariant length < |text| && length <= NulAt(text)
      invariant NulAt(text, length) == NulAt(text)
      decreases |text| - length
    {
      length := length + 1;
    }
  }

  /** Prefix test, without reading past the terminator of either string. */
  method StartsWith(text: seq<char>, prefix: seq<char>) returns (r: bool)
    requires '\0' in text && '\0' in prefix
    ensures r <==> Str(prefix) <= Str(text)
  {
    var index := 0;
    while prefix[index] != '\0'
      invariant index <= NulAt(prefix) && index <= NulAt(text)
      invariant index < |prefix| && index < |text|
      invariant Str(text)[..index] == Str(prefix)[..index]
      decreases |prefix| - index
    {
      if text[index] != prefix[index] {
        assert index < |Str(text)| ==> Str(text)[index] != Str(prefix)[index];
        return false;
      }
      assert Str(text)[..index + 1] == Str(text)[..index] + [text[index]];
      assert Str(prefix)[..index + 1] == Str(prefix)[..index] + [prefix[index]];
      index := index + 1;
    }
    r := true;
  }
}
