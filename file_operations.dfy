/** The file commands of the agent's workspace: an append-only operation log
    of `(operation, path)` entries, a file store from path to text, and the
    read, write, append and delete commands over them. The log doubles as a
    guard: a path logged as deleted is never deleted again. */
module FileOperations {
  import opened Text

  /** One entry of the operation log: the operation name and the path. */
  type Entry = (string, string)

  datatype ReadResult = Content(text: string) | ReadError(message: string)

  const AlreadyDeletedMessage: string := "Error: File has already been deleted."
  const DeletedMessage: string := "File deleted successfully."

  /** The POSIX not-found text for `path`. It agrees with Python's
      `FileNotFoundError` message for a path that Python's `repr` prints
      unchanged between single quotes. */
  function NotFoundText(path: string): string
  {
    "[Errno 2] No such file or directory: '" + path + "'"
  }

  /** The line the log file gains for one entry: `"<operation>: <path>\n"`. */
  function LogLine(entry: Entry): string
  {
    entry.0 + ": " + entry.1 + "\n"
  }

  /** The text of the log file: one line per entry, in append order. */
  function LogText(log: seq<Entry>): string
  {
    if |log| == 0 then "" else LogText(log[..|log| - 1]) + LogLine(log[|log| - 1])
  }

  /** Every logged entry has its line in the log file's text, whatever was
      logged after it. */
  lemma {:induction false} LoggedEntryInLogText(log: seq<Entry>, k: nat)
    requires k < |log|
    ensures IsSubstring(LogLine(log[k]), LogText(log))
  {
    var last := |log| - 1;
    if k == last {
      SuffixIsSubstring(LogText(log[..last]), LogLine(log[k]));
    } else {
      assert log[..last][k] == log[k];
      LoggedEntryInLogText(log[..last], k);
      SubstringOfPrefix(LogLine(log[k]), LogText(log[..last]), LogLine(log[last]));
    }
  }

  /** Logging appends exactly one line to the log file and leaves what was
      there before it untouched. */
  lemma LogTextAppend(log: seq<Entry>, operation: string, path: string)
    ensures LogText(log + [(operation, path)]) == LogText(log) + operation + ": " + path + "\n"
  {
    assert (log + [(operation, path)])[..|log|] == log;
  }

  class Workspace {
    /** The operation log, oldest entry first; entries are only ever appended. */
    var log: seq<Entry>
    /** The files of the workspace, by path. */
    var files: map<string, string>

    constructor ()
      ensures log == [] && files == map[]
    {
      log := [];
      files := map[];
    }

    function LogFileText(): string
      reads this
    {
      LogText(log)
    }

    /** `log_operation`: appends one entry. */
    method LogOperation(operation: string, path: string)
      modifies this`log
      ensures log == old(log) + [(operation, path)]
      ensures LogFileText() == old(LogFileText()) + operation + ": " + path + "\n"
    {
      LogTextAppend(log, operation, path);
      log := log + [(operation, path)];
    }

    /** `check_duplicate_operation`: scans the log for an entry equal to
        `(operation, path)`, by exact string comparison of both parts. */
    method CheckDuplicateOperation(operation: string, path: string) returns (found: bool)
      ensures found <==> exists k :: 0 <= k < |log| && log[k] == (operation, path)
    {
      found := false;
      var i := 0;
      while i < |log| && !found
        invariant 0 <= i <= |log|
        invariant found <==> exists k :: 0 <= k < i && log[k] == (operation, path)
      {
        found := log[i] == (operation, path);
        i := i + 1;
      }
    }

    /** `read_file`: the whole text of the file, or the not-found error. */
    function ReadFile(path: string): (r: ReadResult)
      reads this
      ensures r.Content? <==> path in files
      ensures r.Content? ==> r.text == files[path]
      ensures r.ReadError? ==> r.message == "Error: " + NotFoundText(path)
    {
      if path in files then Content(files[path]) else ReadError("Error: " + NotFoundText(path))
    }

    /** `write_to_file`: replaces the file's text (creating the file) and logs
        the write. */
    method WriteToFile(path: string, text: string)
      modifies this
      ensures files == old(files)[path := text]
      ensures log == old(log) + [("write", path)]
    {
      files := files[path := text];
      LogOperation("write", path);
    }

    /** `append_to_file`: adds `text` at the end of the file (an absent file
        counts as empty) and logs the append. */
    method AppendToFile(path: string, text: string)
      modifies this
      ensures files == old(files)[path := (if path in old(files) then old(files)[path] else "") + text]
      ensures log == old(log) + [("append", path)]
    {
      var before := if path in files then files[path] else "";
      files := files[path := before + text];
      LogOperation("append", path);
    }

    /** `delete_file`: refuses a path already logged as deleted without
        touching the store; otherwise removes the file and logs the delete,
        or reports the operating system's not-found text when the file is
        not there. */
    method DeleteFile(path: string) returns (message: string)
      modifies this
      ensures ("delete", path) in old(log) ==>
        message == AlreadyDeletedMessage && files == old(files) && log == old(log)
      ensures ("delete", path) !in old(log) && path in old(files) ==>
        message == DeletedMessage && files == old(files) - {path} && log == old(log) + [("delete", path)]
      ensures ("delete", path) !in old(log) && path !in old(files) ==>
        message == "Error: " + NotFoundText(path) && files == old(files) && log == old(log)
    {
      var duplicate := CheckDuplicateOperation("delete", path);
      if duplicate {
        return AlreadyDeletedMessage;
      }
      if path !in files {
        return "Error: " + NotFoundText(path);
      }
      files := files - {path};
      LogOperation("delete", path);
      message := DeletedMessage;
    }
  }

  /** A logged operation is found as a duplicate, and its line is in the
      log file. */
  method LogThenCheck(ws: Workspace, operation: string, path: string) returns (duplicate: bool)
    modifies ws
    ensures duplicate
    ensures IsSubstring(operation + ": " + path + "\n", ws.LogFileText())
    ensures ws.log == old(ws.log) + [(operation, path)] && ws.files == old(ws.files)
  {
    ws.LogOperation(operation, path);
    duplicate := ws.CheckDuplicateOperation(operation, path);
    assert ws.log[|ws.log| - 1] == (operation, path);
    LoggedEntryInLogText(ws.log, |ws.log| - 1);
  }

  /** Reading a file just written gives back exactly the written text. */
  method WriteThenRead(ws: Workspace, path: string, text: string) returns (r: ReadResult)
    modifies ws
    ensures r == Content(text)
  {
    ws.WriteToFile(path, text);
    r := ws.ReadFile(path);
  }

  /** Writing a text and appending the same text leaves it twice over. */
  method WriteThenAppend(ws: Workspace, path: string, text: string) returns (r: ReadResult)
    modifies ws
    ensures r == Content(text + text)
    ensures ws.log == old(ws.log) + [("write", path), ("append", path)]
  {
    ws.WriteToFile(path, text);
    ws.AppendToFile(path, text);
    r := ws.ReadFile(path);
  }

  /** Deleting an existing file removes it; deleting it again is refused with
      the canned message and leaves the store alone. */
  method DeleteTwice(ws: Workspace, path: string) returns (first: string, second: string)
    requires path in ws.files
    requires ("delete", path) !in ws.log
    modifies ws
    ensures first == DeletedMessage && second == AlreadyDeletedMessage
    ensures ws.files == old(ws.files) - {path}
    ensures ws.log == old(ws.log) + [("delete", path)]
  {
    first := ws.DeleteFile(path);
    second := ws.DeleteFile(path);
  }

  /** A file removed behind the workspace's back (absent, never logged as
      deleted) yields the not-found text, not the canned message. */
  method DeleteMissing(ws: Workspace, path: string) returns (message: string)
    requires path !in ws.files
    requires ("delete", path) !in ws.log
    modifies ws
    ensures IsSubstring(NotFoundText(path), message)
    ensures message != AlreadyDeletedMessage
    ensures ws.files == old(ws.files) && ws.log == old(ws.log)
  {
    message := ws.DeleteFile(path);
    SuffixIsSubstring("Error: ", NotFoundText(path));
    assert message[7] == '[';
  }

  /** The delete guard is keyed on the log alone: a path deleted once and
      then written again can no longer be deleted; the refusal leaves the new
      file in place. */
  method DeleteWriteDelete(ws: Workspace, path: string, text: string) returns (second: string)
    requires path in ws.files
    requires ("delete", path) !in ws.log
    modifies ws
    ensures second == AlreadyDeletedMessage
    ensures path in ws.files && ws.files[path] == text
  {
    var first := ws.DeleteFile(path);
    ws.WriteToFile(path, text);
    second := ws.DeleteFile(path);
  }
}
