/**
 * A git command waiting to be run: its argument vector and the directory
 * to run it in. Both are GObject properties; a NULL vector or directory is
 * None.
 */
module GitCommand {
  import opened Wrappers
  import opened VarArgs

  /** The two properties of a command. */
  datatype Property = WorkingDirectoryProperty | ArgumentsProperty

  /** A property value: a string for the directory, a string vector for the arguments. */
  datatype PropertyValue = StringValue(s: Option<string>) | StrvValue(v: Option<seq<string>>)

  /** Whether `v` has the type GObject checks for property `p`. */
  predicate HoldsTypeOf(p: Property, v: PropertyValue) {
    match p
    case WorkingDirectoryProperty => v.StringValue?
    case ArgumentsProperty => v.StrvValue?
  }

  /** g_strdupv: a fresh vector holding the same strings in the same order; NULL for NULL. */
  method StrDupV(v: Option<seq<string>>) returns (copy: Option<seq<string>>)
    ensures copy == v
  {
    if v.None? {
      return None;
    }
    var a := new string[|v.value|];
    for i := 0 to |v.value|
      invariant forall j :: 0 <= j < i ==> a[j] == v.value[j]
    {
      a[i] := v.value[i];
    }
    assert a[..] == v.value;
    copy := Some(a[..]);
  }

  /**
   * The argument vector gitg_command_newv collects: `first`, then the
   * variadic strings up to the NULL that ends them.
   */
  method NewvArguments(first: string, ap: seq<Option<string>>) returns (argv: seq<string>)
    requires None in ap
    ensures argv == [first] + NullTerminated(ap)
  {
    argv := [first];
    var num := 0;
    while ap[num].Some?
      invariant 0 <= num < |ap| && None in ap[num..]
      invariant forall j :: 0 <= j < num ==> ap[j].Some?
      invariant |argv| == num + 1 && argv[0] == first
      invariant forall j :: 0 <= j < num ==> ap[j] == Some(argv[j + 1])
      decreases |ap| - num
    {
      assert ap[num..] == [ap[num]] + ap[num + 1..];
      argv := argv + [ap[num].value];
      num := num + 1;
    }
    NullTerminatedUnique(ap, argv[1..]);
    assert argv == [first] + argv[1..];
  }

  class Command {
    var workingDirectory: Option<string>
    var arguments: Option<seq<string>>

    /** gitg_command_new: the arguments are a construct property, copied in; no directory. */
    constructor (arguments: Option<seq<string>>)
      ensures this.arguments == arguments && workingDirectory.None?
    {
      var copy := StrDupV(arguments);
      this.arguments := copy;
      workingDirectory := None;
    }

    /** gitg_command_newv: a command whose arguments are exactly `first` and the variadic strings, in order. */
    static method Newv(first: string, ap: seq<Option<string>>) returns (c: Command)
      requires None in ap
      ensures fresh(c)
      ensures c.arguments == Some([first] + NullTerminated(ap)) && c.workingDirectory.None?
    {
      var argv := NewvArguments(first, ap);
      var copy := StrDupV(Some(argv));
      c := new Command(copy);
    }

    /** gitg_command_get_working_directory. */
    function GetWorkingDirectory(): (wd: Option<string>)
      reads this
      ensures wd == workingDirectory
    {
      workingDirectory
    }

    /** gitg_command_set_working_directory: a copy of `wd` replaces the directory; the arguments stay. */
    method SetWorkingDirectory(wd: Option<string>)
      modifies this`workingDirectory
      ensures GetWorkingDirectory() == wd
    {
      workingDirectory := wd;
    }

    /** gitg_command_get_arguments. */
    function GetArguments(): (args: Option<seq<string>>)
      reads this
      ensures args == arguments
    {
      arguments
    }

    /** gitg_command_set_arguments: an element-wise copy of `args` replaces the vector; the directory stays. */
    method SetArguments(args: Option<seq<string>>)
      modifies this`arguments
      ensures GetArguments() == args
    {
      arguments := StrDupV(args);
    }

    /**
     * gitg_command_set_argumentsv: the variadic strings up to the NULL
     * become the arguments. An empty list makes parse_valist write through
     * a NULL pointer; the model gives the intended empty vector there.
     */
    method SetArgumentsv(ap: seq<Option<string>>)
      requires None in ap
      modifies this`arguments
      ensures GetArguments() == Some(NullTerminated(ap))
    {
      var argv := CollectValist(ap);
      SetArguments(Some(argv));
    }

    /**
     * gitg_command_prepend_argument: a vector one longer whose first entry
     * is `argument`, followed by the old entries in order (a NULL vector
     * counts as empty).
     */
    method PrependArgument(argument: string)
      modifies this`arguments
      ensures GetArguments() == Some([argument] + old(arguments).GetOr([]))
    {
      var old_args := arguments.GetOr([]);
      var num := |old_args|;
      var args := new string[num + 1];
      args[0] := argument;
      for i := 0 to num
        invariant args[0] == argument
        invariant forall j :: 0 <= j < i ==> args[j + 1] == old_args[j]
      {
        args[i + 1] := old_args[i];
      }
      assert args[..] == [argument] + old_args;
      arguments := Some(args[..]);
    }

    /** gitg_command_get_property: the directory, or a copy of the arguments. */
    method GetProperty(p: Property) returns (v: PropertyValue)
      ensures HoldsTypeOf(p, v)
      ensures p == WorkingDirectoryProperty ==> v == StringValue(workingDirectory)
      ensures p == ArgumentsProperty ==> v == StrvValue(arguments)
    {
      match p
      case WorkingDirectoryProperty =>
        v := StringValue(workingDirectory);
      case ArgumentsProperty =>
        var copy := StrDupV(arguments);
        v := StrvValue(copy);
    }

    /**
     * gitg_command_set_property: a copy of the value replaces the property;
     * the other property stays.
     */
    method SetProperty(p: Property, v: PropertyValue)
      requires HoldsTypeOf(p, v)
      modifies this
      ensures p == WorkingDirectoryProperty ==> workingDirectory == v.s && arguments == old(arguments)
      ensures p == ArgumentsProperty ==> arguments == v.v && workingDirectory == old(workingDirectory)
    {
      match p
      case WorkingDirectoryProperty =>
        workingDirectory := v.s;
      case ArgumentsProperty =>
        var copy := StrDupV(v.v);
        arguments := copy;
    }
  }
}
