/**
 * The command-line handling of `ShellCommandReaderFactory`: which reader the shell uses and
 * the properties it passes on, gathered from `-Dkey=value` arguments and property files.
 *
 * Property files are not read: the contents of every readable file are given as a map from
 * path to properties, and a path missing from it stands for a file that cannot be loaded.
 */
module ShellReaders {
  import opened Results
  import opened JavaStrings

  type Properties = map<string, string>

  const DEFINE_PREFIX: string := "-D"
  const PROPERTIES_FILE_FLAG: string := "-propertiesFile"
  const SIMPLE_FLAG: string := "-simple"
  const FILE_FLAG: string := "-f"
  const EQUALS_SIGN: char := '='

  /**
   * The exceptions `getProperties` throws, each naming the offending argument and its
   * index: a `-D` argument without `=`, or a property file that cannot be loaded.
   */
  datatype PropertyError = BadDefinition(argument: string, index: nat) | BadPropertiesFile(argument: string, index: nat)

  /** The key of a `-D` argument: the text between `-D` and the first `=`. */
  function DefinitionKey(argument: string): (k: string)
    requires StartsWith(argument, DEFINE_PREFIX) && EQUALS_SIGN in argument
    ensures EQUALS_SIGN !in k
  {
    var e := IndexOf(argument, EQUALS_SIGN);
    assert e >= 2 by {
      assert argument[0] == '-' && argument[1] == 'D';
    }
    assert argument[2..e] == argument[..e][2..];
    argument[2..e]
  }

  /** The value of a `-D` argument: everything after the first `=`. */
  function DefinitionValue(argument: string): string
    requires EQUALS_SIGN in argument
  {
    argument[IndexOf(argument, EQUALS_SIGN) + 1..]
  }

  /** `-D`, the key, `=` and the value give back the argument they were taken from. */
  lemma DefinitionSplit(argument: string)
    requires StartsWith(argument, DEFINE_PREFIX) && EQUALS_SIGN in argument
    ensures argument == DEFINE_PREFIX + DefinitionKey(argument) + [EQUALS_SIGN] + DefinitionValue(argument)
  {
    var e := IndexOf(argument, EQUALS_SIGN);
    assert argument == argument[..2] + argument[2..e] + [argument[e]] + argument[e + 1..];
  }

  /** A definition built from a key without `=` and any value parses back to them. */
  lemma DefinitionRoundTrip(key: string, value: string)
    requires EQUALS_SIGN !in key
    ensures var argument := DEFINE_PREFIX + key + [EQUALS_SIGN] + value;
            StartsWith(argument, DEFINE_PREFIX) && EQUALS_SIGN in argument &&
            DefinitionKey(argument) == key && DefinitionValue(argument) == value
  {
    var argument := DEFINE_PREFIX + key + [EQUALS_SIGN] + value;
    assert argument == (DEFINE_PREFIX + key) + [EQUALS_SIGN] + value;
    assert EQUALS_SIGN !in DEFINE_PREFIX + key;
    IndexOfConcat(DEFINE_PREFIX + key, EQUALS_SIGN, value);
    assert argument[..|DEFINE_PREFIX|] == DEFINE_PREFIX;
  }

  /**
   * The rest of the `getProperties` loop from argument `i` on, with the flag saying the
   * previous argument was `-propertiesFile` and the properties gathered so far.
   */
  function GatherFrom(args: seq<string>, i: nat, propertyFileArg: bool, properties: Properties,
                      files: map<string, Properties>): Result<Properties, PropertyError>
    decreases |args| - i
  {
    if i >= |args| then Ok(properties)
    else
      var argument := args[i];
      if !propertyFileArg then
        if StartsWith(argument, DEFINE_PREFIX) then
          if EQUALS_SIGN in argument then
            GatherFrom(args, i + 1, false, properties[DefinitionKey(argument) := DefinitionValue(argument)], files)
          else Err(BadDefinition(argument, i))
        else GatherFrom(args, i + 1, argument == PROPERTIES_FILE_FLAG, properties, files)
      else if argument in files then GatherFrom(args, i + 1, false, properties + files[argument], files)
      else Err(BadPropertiesFile(argument, i))
  }

  /** What `getProperties(index, args)` returns or throws. */
  function PropertiesOf(index: nat, args: seq<string>, files: map<string, Properties>): Result<Properties, PropertyError>
  {
    GatherFrom(args, index, false, map[], files)
  }

  /** `getProperties`: walks the arguments from `index` on, one at a time. */
  method GetProperties(index: nat, args: seq<string>, files: map<string, Properties>)
    returns (r: Result<Properties, PropertyError>)
    ensures r == PropertiesOf(index, args, files)
  {
    var properties: Properties := map[];
    var propertyFileArg := false;
    var i := index;
    while i < |args|
      invariant index <= i || |args| <= index
      invariant GatherFrom(args, i, propertyFileArg, properties, files) == PropertiesOf(index, args, files)
      decreases |args| - i
    {
      var argument := args[i];
      if !propertyFileArg {
        if StartsWith(argument, DEFINE_PREFIX) {
          if EQUALS_SIGN in argument {
            var key := DefinitionKey(argument);
            var value := DefinitionValue(argument);
            properties := properties[key := value];
          } else {
            return Err(BadDefinition(argument, i));
          }
        } else if argument == PROPERTIES_FILE_FLAG {
          propertyFileArg := true;
        }
      } else {
        propertyFileArg := false;
        if argument !in files {
          return Err(BadPropertiesFile(argument, i));
        }
        properties := properties + files[argument];
      }
      i := i + 1;
    }
    return Ok(properties);
  }

  /** A single `-Dkey=value` defines `key` as `value`, whatever `=` the value holds. */
  lemma DefinitionDefines(key: string, value: string, files: map<string, Properties>)
    requires EQUALS_SIGN !in key
    ensures PropertiesOf(0, [DEFINE_PREFIX + key + [EQUALS_SIGN] + value], files) == Ok(map[key := value])
  {
    DefinitionRoundTrip(key, value);
    var args := [DEFINE_PREFIX + key + [EQUALS_SIGN] + value];
    assert GatherFrom(args, 1, false, map[key := value], files) == Ok(map[key := value]);
  }

  /** Of two definitions of one key, the later one wins. */
  lemma LaterDefinitionWins(key: string, first: string, second: string, files: map<string, Properties>)
    requires EQUALS_SIGN !in key
    ensures PropertiesOf(0, [DEFINE_PREFIX + key + [EQUALS_SIGN] + first, DEFINE_PREFIX + key + [EQUALS_SIGN] + second], files)
            == Ok(map[key := second])
  {
    DefinitionRoundTrip(key, first);
    DefinitionRoundTrip(key, second);
    var args := [DEFINE_PREFIX + key + [EQUALS_SIGN] + first, DEFINE_PREFIX + key + [EQUALS_SIGN] + second];
    assert map[key := first][key := second] == map[key := second];
    assert GatherFrom(args, 2, false, map[key := second], files) == Ok(map[key := second]);
    assert GatherFrom(args, 1, false, map[key := first], files) == Ok(map[key := second]);
  }

  /** A `-D` argument without `=` is an error naming it and its index. */
  lemma DefinitionWithoutEqualsFails(args: seq<string>, i: nat, propertyFileArg: bool, properties: Properties,
                                     files: map<string, Properties>)
    requires i < |args| && !propertyFileArg && StartsWith(args[i], DEFINE_PREFIX) && EQUALS_SIGN !in args[i]
    ensures GatherFrom(args, i, propertyFileArg, properties, files) == Err(BadDefinition(args[i], i))
  {
  }

  /**
   * The argument after `-propertiesFile` is always a file path, even when it looks like a
   * definition; its properties are added over the ones gathered so far, and the flag is
   * reset for the argument after it.
   */
  lemma ArgumentAfterFlagIsFile(args: seq<string>, i: nat, properties: Properties, files: map<string, Properties>)
    requires i + 1 < |args| && args[i] == PROPERTIES_FILE_FLAG
    ensures GatherFrom(args, i, false, properties, files) ==
            if args[i + 1] in files then GatherFrom(args, i + 2, false, properties + files[args[i + 1]], files)
            else Err(BadPropertiesFile(args[i + 1], i + 1))
  {
    assert !StartsWith(args[i], DEFINE_PREFIX) by {
      assert args[i][1] == 'p';
    }
  }

  /**
   * An argument that is neither a definition nor `-propertiesFile`, and does not follow
   * `-propertiesFile`, is skipped.
   */
  lemma OtherArgumentIgnored(args: seq<string>, i: nat, properties: Properties, files: map<string, Properties>)
    requires i < |args| && !StartsWith(args[i], DEFINE_PREFIX) && args[i] != PROPERTIES_FILE_FLAG
    ensures GatherFrom(args, i, false, properties, files) == GatherFrom(args, i + 1, false, properties, files)
  {
  }

  /** The arguments before the start index play no part. */
  lemma {:induction false} IgnoresArgumentsBefore(index: nat, args: seq<string>, args': seq<string>,
                                                  files: map<string, Properties>)
    requires |args| == |args'| && index <= |args| && args[index..] == args'[index..]
    ensures PropertiesOf(index, args, files) == PropertiesOf(index, args', files)
  {
    GatherAgrees(index, args, args', false, map[], files);
  }

  lemma {:induction false} GatherAgrees(i: nat, args: seq<string>, args': seq<string>, propertyFileArg: bool,
                                        properties: Properties, files: map<string, Properties>)
    requires |args| == |args'| && i <= |args| && args[i..] == args'[i..]
    ensures GatherFrom(args, i, propertyFileArg, properties, files) == GatherFrom(args', i, propertyFileArg, properties, files)
    decreases |args| - i
  {
    if i < |args| {
      assert args[i] == args[i..][0] == args'[i];
      assert args[i + 1..] == args[i..][1..];
      assert args'[i + 1..] == args'[i..][1..];
      var argument := args[i];
      if !propertyFileArg {
        if StartsWith(argument, DEFINE_PREFIX) {
          if EQUALS_SIGN in argument {
            GatherAgrees(i + 1, args, args', false, properties[DefinitionKey(argument) := DefinitionValue(argument)], files);
          }
        } else {
          GatherAgrees(i + 1, args, args', argument == PROPERTIES_FILE_FLAG, properties, files);
        }
      } else if argument in files {
        GatherAgrees(i + 1, args, args', false, properties + files[argument], files);
      }
    }
  }

  // ---------------------------------------------------------------- reader selection

  /** The readers the factory can make, with the properties each is given. */
  datatype Reader =
    | Interactive
    | StdIn(given: Option<Properties>)
    | ConsoleReader(properties: Properties)
    | FileReader(path: string, properties: Properties)

  /**
   * `createCommandReader`: with no arguments, an interactive reader on a console and a
   * standard-input reader otherwise; `-simple` gives a console or standard-input reader
   * with the properties from argument 1 on; `-f path` gives a file reader on the path with
   * the properties from argument 2 on; anything else gives no reader. Whether the process
   * has a console is `console`.
   */
  method CreateCommandReader(args: seq<string>, console: bool, files: map<string, Properties>)
    returns (r: Result<Option<Reader>, PropertyError>)
    ensures args == [] ==> r == Ok(Some(if console then Interactive else StdIn(None)))
    ensures args != [] && args[0] == SIMPLE_FLAG ==>
              var p := PropertiesOf(1, args, files);
              r == if p.Err? then Err(p.error)
                   else Ok(Some(if console then ConsoleReader(p.value) else StdIn(Some(p.value))))
    ensures args != [] && args[0] != SIMPLE_FLAG && |args| >= 2 && args[0] == FILE_FLAG ==>
              var p := PropertiesOf(2, args, files);
              r == if p.Err? then Err(p.error) else Ok(Some(FileReader(args[1], p.value)))
    ensures args != [] && args[0] != SIMPLE_FLAG && !(|args| >= 2 && args[0] == FILE_FLAG) ==> r == Ok(None)
  {
    var commandReader: Option<Reader> := None;
    if |args| > 0 {
      if args[0] == SIMPLE_FLAG {
        var properties := GetProperties(1, args, files);
        if properties.Err? {
          return Err(properties.error);
        }
        if console {
          commandReader := Some(ConsoleReader(properties.value));
        } else {
          commandReader := Some(StdIn(Some(properties.value)));
        }
      } else if |args| >= 2 && FILE_FLAG == args[0] {
        var filePath := args[1];
        var properties := GetProperties(2, args, files);
        if properties.Err? {
          return Err(properties.error);
        }
        commandReader := Some(FileReader(filePath, properties.value));
      }
    } else {
      if console {
        commandReader := Some(Interactive);
      } else {
        commandReader := Some(StdIn(None));
      }
    }
    return Ok(commandReader);
  }
}
