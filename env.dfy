/**
 * The program's surroundings, as values: the file system the tool reads from
 * and the standard input stream.
 */
module Env {
  import opened Wrappers
  import opened PyStr

  /** What a path names: a regular file with its UTF-8 text, or a directory. */
  datatype Entry = File(contents: string) | Dir

  /** Existing paths and what they name; a path not in the map does not exist. */
  type FileSystem = map<string, Entry>

  /** Standard input: whether it is a terminal, and the lines it yields (each with its newline). */
  datatype Stdin = Stdin(isTty: bool, lines: seq<string>)

  /** Which error message the source resolver reports. */
  datatype Fault = NotFound | DirectoryInput | TooSmall | NoSourceProvided

  /**
   * The pair `get_source_code` returns, with the message it reported. On
   * every fault the pair is the sentinel `("", "")`.
   */
  datatype Resolved = Resolved(code: string, path: string, fault: Option<Fault>)

  /** A path `fileinput` cannot open for reading: anything but `-` that is not a regular file. */
  predicate Unreadable(path: string, fs: FileSystem) {
    path != "-" && !(path in fs && fs[path].File?)
  }

  /**
   * `fileinput.input()` called without arguments. It reads the files named by
   * the process arguments after the program name, one after another, and
   * standard input only at a `-` argument or when there are no arguments at
   * all. `None` is the exception raised on opening an unreadable path.
   */
  function FileInput(args: seq<string>, fs: FileSystem, stdin: Stdin): (r: Option<string>)
    ensures args == [] ==> r == Some(Concat(stdin.lines))
    ensures r.None? <==> exists i :: 0 <= i < |args| && Unreadable(args[i], fs)
    ensures args != [] && r.Some? ==> r.value == Concat(Texts(args, fs, stdin, false))
  {
    if args == [] then Some(Concat(stdin.lines)) else ReadFiles(args, fs, stdin, false)
  }

  /**
   * What the name at position `k` contributes to the text read: standard
   * input at the first `-` unless it was read to its end before, nothing at a
   * later `-`, and a regular file's contents otherwise.
   */
  ghost function FileText(files: seq<string>, fs: FileSystem, stdin: Stdin, stdinDone: bool, k: nat): string
    requires k < |files|
  {
    if files[k] == "-" then (if stdinDone || "-" in files[..k] then "" else Concat(stdin.lines))
    else if files[k] in fs && fs[files[k]].File? then fs[files[k]].contents
    else ""
  }

  /** The contributions of all the names, position by position. */
  ghost function Texts(files: seq<string>, fs: FileSystem, stdin: Stdin, stdinDone: bool): (t: seq<string>)
    ensures |t| == |files|
    ensures forall k :: 0 <= k < |files| ==> t[k] == FileText(files, fs, stdin, stdinDone, k)
  {
    seq(|files|, k requires 0 <= k < |files| => FileText(files, fs, stdin, stdinDone, k))
  }

  /** The contributions of a list are the first name's, then the rest's once that name is read. */
  lemma TextsStep(files: seq<string>, fs: FileSystem, stdin: Stdin, stdinDone: bool)
    requires files != []
    ensures Texts(files, fs, stdin, stdinDone)
      == [FileText(files, fs, stdin, stdinDone, 0)] + Texts(files[1..], fs, stdin, stdinDone || files[0] == "-")
  {
    var t := Texts(files, fs, stdin, stdinDone);
    var u := Texts(files[1..], fs, stdin, stdinDone || files[0] == "-");
    forall k | 1 <= k < |files| ensures t[k] == u[k - 1] {
      assert files[..k] == [files[0]] + files[1..][..k - 1];
      assert files[k] == files[1..][k - 1];
    }
    assert t == [t[0]] + u;
  }

  /**
   * The text of `files` read in order; `stdinDone` says whether standard input
   * has already been read to its end, so a later `-` yields nothing.
   */
  function ReadFiles(files: seq<string>, fs: FileSystem, stdin: Stdin, stdinDone: bool): (r: Option<string>)
    ensures r.None? <==> exists i :: 0 <= i < |files| && Unreadable(files[i], fs)
    ensures r.Some? && files != [] && files[0] != "-" ==> StartsWith(r.value, fs[files[0]].contents)
    ensures r.Some? ==> r.value == Concat(Texts(files, fs, stdin, stdinDone))
    decreases |files|
  {
    if files == [] then Some("")
    else
      var rest := ReadFiles(files[1..], fs, stdin, stdinDone || files[0] == "-");
      assert forall i :: 1 <= i < |files| ==> files[i] == files[1..][i - 1];
      if Unreadable(files[0], fs) || rest.None? then None
      else
        var head := if files[0] == "-" then (if stdinDone then "" else Concat(stdin.lines)) else fs[files[0]].contents;
        assert (head + rest.value)[..|head|] == head;
        TextsStep(files, fs, stdin, stdinDone);
        assert head == FileText(files, fs, stdin, stdinDone, 0);
        ghost var t := Texts(files, fs, stdin, stdinDone);
        assert t[1..] == Texts(files[1..], fs, stdin, stdinDone || files[0] == "-");
        Some(head + rest.value)
  }

  /** Once a process argument is given and none of them is `-`, standard input is never read. */
  lemma {:induction false} FilesIgnoreStdin(files: seq<string>, fs: FileSystem, a: Stdin, b: Stdin, doneA: bool, doneB: bool)
    requires "-" !in files
    ensures ReadFiles(files, fs, a, doneA) == ReadFiles(files, fs, b, doneB)
    decreases |files|
  {
    if files != [] {
      assert "-" !in files[1..] by {
        forall i | 0 <= i < |files[1..]| ensures files[1..][i] != "-" {
          assert files[1..][i] == files[i + 1];
        }
      }
      FilesIgnoreStdin(files[1..], fs, a, b, doneA, doneB);
    }
  }

  /** With process arguments and no `-` among them, what standard input holds makes no difference. */
  lemma FileInputIgnoresStdin(args: seq<string>, fs: FileSystem, a: Stdin, b: Stdin)
    requires args != [] && "-" !in args
    ensures FileInput(args, fs, a) == FileInput(args, fs, b)
  {
    FilesIgnoreStdin(args, fs, a, b, false, false);
  }

  /** With no `-` and every name a regular file, the text read is the files' contents, in order. */
  lemma FileInputReadsEveryFile(args: seq<string>, fs: FileSystem, stdin: Stdin)
    requires args != [] && "-" !in args
    requires forall k :: 0 <= k < |args| ==> args[k] in fs && fs[args[k]].File?
    ensures FileInput(args, fs, stdin)
      == Some(Concat(seq(|args|, k requires 0 <= k < |args| && args[k] in fs => fs[args[k]].contents)))
  {
    var t := Texts(args, fs, stdin, false);
    assert t == seq(|args|, k requires 0 <= k < |args| && args[k] in fs => fs[args[k]].contents) by {
      forall k | 0 <= k < |args| ensures t[k] == fs[args[k]].contents {
        assert args[k] != "-";
      }
    }
  }

  /** Standard input is read once: a second `-` adds nothing. */
  lemma DashTwiceReadsStdinOnce(args: seq<string>, fs: FileSystem, stdin: Stdin)
    requires args == ["-", "-"]
    ensures FileInput(args, fs, stdin) == Some(Concat(stdin.lines))
  {
    var t := Texts(args, fs, stdin, false);
    assert args[..1] == ["-"];
    assert t == [Concat(stdin.lines), ""];
    assert Concat(t) == Concat(stdin.lines) + Concat(t[1..]);
    assert t[1..][1..] == [];
    assert Concat(t[1..]) == "";
    assert forall i :: 0 <= i < |args| ==> !Unreadable(args[i], fs);
    var r := FileInput(args, fs, stdin);
    assert r.Some?;
    assert r.value == Concat(t);
    assert Concat(t) == Concat(stdin.lines);
  }
}
