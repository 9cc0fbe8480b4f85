/**
 * Choosing the command to run from the first command-line argument: "complete"
 * and "help" are recognised before the command table is searched, the table is
 * searched in order, and anything else (or no argument at all) runs help.
 */
module Dispatch {

  datatype Option<T> = None | Some(value: T)

  datatype Command =
    | Ls | LsNames | LsFiles | RunFiles | PutFirst | PutLast | Rm | Which
    | Shadow | Doctor | Edit | Export | Activate | Version | Complete | Help

  datatype Entry = Entry(name: string, command: Command, help: string)

  /** The command table, in the order help lists it. */
  const Commands: seq<Entry> := [
    Entry("ls", Ls, "List path entries (in order from first to last)"),
    Entry("ls-names", LsNames, "List all files in path (names only)"),
    Entry("ls-files", LsFiles, "List all files in path (full pathnames)"),
    Entry("run-files", RunFiles, "Run program, feeding it filenames on stdin"),
    Entry("put-first", PutFirst, "Add or move the given entry to the beginning of the path"),
    Entry("put-last", PutLast, "Add or move the given entry to the end of the path"),
    Entry("rm", Rm, "Remove path entries (you'll be asked for each entry)"),
    Entry("which", Which, "See which file matches first in path"),
    Entry("shadow", Shadow, "Show name conflicts"),
    Entry("doctor", Doctor, "Find potential path problems"),
    Entry("edit", Edit, "Edit the path in EDITOR or another program"),
    Entry("export", Export, "Generate an export statement in shell syntax"),
    Entry("activate", Activate, "Try this in your shell: eval \"$(pathy activate)\""),
    Entry("version", Version, "Show version information")
  ]

  /** The command of the first entry of `table` named `name`, if any. */
  function Lookup(table: seq<Entry>, name: string): (r: Option<Command>)
    ensures r.None? <==> forall i :: 0 <= i < |table| ==> table[i].name != name
    ensures r.Some? ==> exists i :: 0 <= i < |table| && table[i].name == name && table[i].command == r.value
    decreases |table|
  {
    if table == [] then None
    else if table[0].name == name then Some(table[0].command)
    else Lookup(table[1..], name)
  }

  /** commandFuncByName */
  function CommandByName(name: string): (c: Command) {
    if name == "complete" then Complete
    else if name == "help" then Help
    else match Lookup(Commands, name)
      case Some(c) => c
      case None => Help
  }

  /** main: no argument runs help; otherwise the first argument names the command. */
  function Dispatch(args: seq<string>): (c: Command)
    ensures args == [] ==> c == Help
  {
    if args == [] then Help else CommandByName(args[0])
  }

  /** The name each command is run by. */
  function NameOf(c: Command): (r: string) {
    match c
    case Ls => "ls"
    case LsNames => "ls-names"
    case LsFiles => "ls-files"
    case RunFiles => "run-files"
    case PutFirst => "put-first"
    case PutLast => "put-last"
    case Rm => "rm"
    case Which => "which"
    case Shadow => "shadow"
    case Doctor => "doctor"
    case Edit => "edit"
    case Export => "export"
    case Activate => "activate"
    case Version => "version"
    case Complete => "complete"
    case Help => "help"
  }

  /** The first entry named `name` decides the lookup. */
  lemma {:induction false} LookupFirst(table: seq<Entry>, i: nat, name: string)
    requires i < |table| && table[i].name == name
    requires forall j :: 0 <= j < i ==> table[j].name != name
    ensures Lookup(table, name) == Some(table[i].command)
    decreases i
  {
    if i > 0 {
      LookupFirst(table[1..], i - 1, name);
    }
  }

  /** Where each command of the table stands in it. */
  function IndexOf(c: Command): (i: nat)
    requires c != Complete && c != Help
    ensures i < |Commands| && Commands[i].command == c
  {
    match c
    case Ls => 0
    case LsNames => 1
    case LsFiles => 2
    case RunFiles => 3
    case PutFirst => 4
    case PutLast => 5
    case Rm => 6
    case Which => 7
    case Shadow => 8
    case Doctor => 9
    case Edit => 10
    case Export => 11
    case Activate => 12
    case Version => 13
  }

  /** The table names its commands by their own names, each name once, and neither
      "complete" nor "help" is among them. */
  lemma TableNames(i: nat, j: nat)
    requires i < |Commands| && j < |Commands|
    ensures Commands[i].name == NameOf(Commands[i].command)
    ensures Commands[i].command != Complete && Commands[i].command != Help
    ensures Commands[i].name != "complete" && Commands[i].name != "help"
    ensures i != j ==> Commands[i].name != Commands[j].name
  {
  }

  /** Every command is reached by its own name: in particular no table entry is hidden
      by an earlier entry of the same name or by the two names checked first. */
  lemma CommandByNameRoundTrip(c: Command)
    ensures CommandByName(NameOf(c)) == c
  {
    if c != Complete && c != Help {
      var i := IndexOf(c);
      TableNames(i, i);
      assert NameOf(c) == Commands[i].name;
      forall j | 0 <= j < i
        ensures Commands[j].name != NameOf(c)
      {
        TableNames(j, i);
      }
      LookupFirst(Commands, i, NameOf(c));
    }
  }

  /** A name that is neither "complete", "help" nor in the table runs help. */
  lemma UnknownNameRunsHelp(name: string)
    requires name != "complete" && name != "help"
    requires forall i :: 0 <= i < |Commands| ==> Commands[i].name != name
    ensures CommandByName(name) == Help
  {
  }

  /** Conversely, help runs only for "help" and unknown names. */
  lemma HelpOnlyWhenUnknown(name: string)
    requires CommandByName(name) == Help
    ensures name == "help" || (name != "complete" && forall i :: 0 <= i < |Commands| ==> Commands[i].name != name)
  {
    if name != "help" && name != "complete" && Lookup(Commands, name).Some? {
      var i :| 0 <= i < |Commands| && Commands[i].name == name && Commands[i].command == Help;
      TableNames(i, i);
    }
  }
}
