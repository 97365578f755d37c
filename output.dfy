/** The capture buffer the wrapped console application writes into. */
module Output {

  /**
   * ArrayOutput: every write becomes one entry of `store`; `GetStore`
   * hands the entries back and empties the buffer.
   */
  class ArrayOutput {
    var store: seq<string>

    /** A fresh buffer holds nothing. */
    constructor ()
      ensures store == []
    {
      store := [];
    }

    /** doWrite: appends `message` as one entry; `newline` leaves no trace. */
    method DoWrite(message: string, newline: bool)
      modifies this
      ensures store == old(store) + [message]
    {
      store := store + [message];
    }

    /** getStore: everything written since creation or the previous drain, then empty. */
    method GetStore() returns (drained: seq<string>)
      modifies this
      ensures drained == old(store)
      ensures store == []
    {
      drained := store;
      store := [];
    }
  }

  /**
   * The writes the wrapped application makes while it runs, each reaching
   * `DoWrite` in turn: n writes lengthen the buffer by n, earlier entries
   * untouched.
   */
  method WriteAll(output: ArrayOutput, messages: seq<string>, newline: bool)
    modifies output
    ensures output.store == old(output.store) + messages
    ensures |output.store| == |old(output.store)| + |messages|
  {
    var i := 0;
    while i < |messages|
      invariant 0 <= i <= |messages|
      invariant output.store == old(output.store) + messages[..i]
    {
      output.DoWrite(messages[i], newline);
      i := i + 1;
    }
    assert messages[..i] == messages;
  }

  /**
   * One capture session: a fresh buffer, the application's writes, two
   * drains. The first returns the writes in order, the second nothing.
   */
  method CaptureTwice(messages: seq<string>, newline: bool) returns (first: seq<string>, second: seq<string>)
    ensures first == messages
    ensures second == []
  {
    var output := new ArrayOutput();
    WriteAll(output, messages, newline);
    first := output.GetStore();
    second := output.GetStore();
  }
}
