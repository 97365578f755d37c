/**
 * The two exception classes of the package and the errors the helper can
 * raise, as the payloads of one error datatype.
 */
module Exceptions {
  import opened Wrappers
  import Php

  /** What a helper call throws. */
  datatype Error =
    | FileNotFound(message: string)   // FileNotFoundException
    | EmptyFile(message: string)      // EmptyFileException
    | Runtime(message: string)        // RuntimeException carrying json_last_error_msg()
    | TypeError                       // PHP's TypeError from a declared type (strict_types=1)

  const FileNotFoundText: string := "File not found."

  /**
   * The message of `new FileNotFoundException($additional)`: the fixed
   * sentence, followed by a space and `additional` only when `additional`
   * is truthy; so "" (the default) and "0" both give the bare sentence.
   */
  function FileNotFoundMessage(additional: string := ""): (m: string)
    ensures |m| >= |FileNotFoundText| && m[..|FileNotFoundText|] == FileNotFoundText
    ensures m == FileNotFoundText <==> !Php.StrTruthy(additional)
    ensures Php.StrTruthy(additional) ==> m[|FileNotFoundText|..] == " " + additional
  {
    FileNotFoundText + (if Php.StrTruthy(additional) then " " + additional else "")
  }

  /** Reads back the detail a FileNotFoundException message carries ("" for none). */
  function FileNotFoundDetail(m: string): Option<string> {
    if |m| < |FileNotFoundText| || m[..|FileNotFoundText|] != FileNotFoundText then None
    else if m == FileNotFoundText then Some("")
    else if m[|FileNotFoundText|] == ' ' then Some(m[|FileNotFoundText| + 1..])
    else None
  }

  /** The detail is recovered from the message, except that a falsy detail reads back as "". */
  lemma FileNotFoundDetailRoundTrip(additional: string)
    ensures FileNotFoundDetail(FileNotFoundMessage(additional))
            == Some(if Php.StrTruthy(additional) then additional else "")
  {
    var m := FileNotFoundMessage(additional);
    if Php.StrTruthy(additional) {
      assert m[|FileNotFoundText|] == ' ';
      assert m[|FileNotFoundText| + 1..] == additional;
    }
  }

  /** The one loss: "0" gives the same message as no detail at all. */
  lemma FileNotFoundDropsZero()
    ensures FileNotFoundMessage() == FileNotFoundMessage("0") == FileNotFoundMessage("") == "File not found."
    ensures FileNotFoundMessage("x") == "File not found. x"
  {
  }

  /** Two truthy details give equal messages only if they are equal. */
  lemma FileNotFoundMessageInjective(a: string, b: string)
    requires Php.StrTruthy(a) && Php.StrTruthy(b)
    requires FileNotFoundMessage(a) == FileNotFoundMessage(b)
    ensures a == b
  {
    FileNotFoundDetailRoundTrip(a);
    FileNotFoundDetailRoundTrip(b);
  }

  const EmptyFileHead: string := "File "
  const EmptyFileTail: string := " is empty."

  /** The message of `new EmptyFileException($file)`: the path embedded verbatim. */
  function EmptyFileMessage(file: string): (m: string)
    ensures |m| == |file| + 15
    ensures m[..5] == EmptyFileHead && m[|m| - 10..] == EmptyFileTail
    ensures m[5..|m| - 10] == file
  {
    EmptyFileHead + file + EmptyFileTail
  }

  /** Reads back the path an EmptyFileException message names. */
  function EmptyFilePath(m: string): Option<string> {
    if |m| >= 15 && m[..5] == EmptyFileHead && m[|m| - 10..] == EmptyFileTail
    then Some(m[5..|m| - 10])
    else None
  }

  lemma EmptyFilePathRoundTrip(file: string)
    ensures EmptyFilePath(EmptyFileMessage(file)) == Some(file)
  {
  }

  /** No path is special: the empty path leaves two spaces in a row. */
  lemma EmptyFileOfEmptyPath()
    ensures EmptyFileMessage("") == "File  is empty."
  {
  }
}
