/**
 * The command line of the Teiid DDL language server: whether it runs over a websocket,
 * the `--name=value` parameters `TeiidDdlLanguageServerRunner` extracts, and the defaults
 * `TeiidDdlWebSocketRunner` substitutes for the ones that are missing. `None` stands for
 * Java's `null`. Starting the server itself is not part of this model.
 */
module LspRunner {
  import opened Results
  import opened JavaStrings

  const WEBSOCKET_PARAMETER: string := "--websocket"
  const PORT_PARAMETER: string := "--port="
  const HOSTNAME_PARAMETER: string := "--hostname="
  const CONTEXTPATH_PARAMETER: string := "--contextPath="

  const DEFAULT_HOSTNAME: string := "localhost"
  const DEFAULT_PORT: int := 8025
  const DEFAULT_CONTEXT_PATH: string := "/"

  /** What `extractPort` returns when no argument gives a port. */
  const NO_PORT: int := -1

  const INVALID_PORT_MESSAGE: string := "The provided port is invalid."

  /** The `IllegalArgumentException` of `extractPort`. */
  datatype PortError = InvalidPort(message: string)

  /** The websocket mode check of `main`: some argument is exactly `--websocket`. */
  function WebsocketMode(arguments: seq<string>): (b: bool)
    ensures b <==> exists k :: 0 <= k < |arguments| && arguments[k] == WEBSOCKET_PARAMETER
  {
    WEBSOCKET_PARAMETER in arguments
  }

  /**
   * The index of the first argument from `from` on that starts with `prefix`, or the
   * number of arguments when none does: the for-each search with early return.
   */
  function FirstStarting(arguments: seq<string>, prefix: string, from: nat): (k: nat)
    requires from <= |arguments|
    ensures from <= k <= |arguments|
    ensures forall j :: from <= j < k ==> !StartsWith(arguments[j], prefix)
    ensures k < |arguments| ==> StartsWith(arguments[k], prefix)
    decreases |arguments| - from
  {
    if from == |arguments| then from
    else if StartsWith(arguments[from], prefix) then from
    else FirstStarting(arguments, prefix, from + 1)
  }

  /**
   * `extractParameterValue`: what follows the prefix in the first argument that starts with
   * it, or nothing when none does.
   */
  function ExtractParameterValue(arguments: seq<string>, parameterToExtract: string): (r: Option<string>)
    ensures r.None? <==> forall j :: 0 <= j < |arguments| ==> !StartsWith(arguments[j], parameterToExtract)
    ensures r.Some? ==> exists k :: 0 <= k < |arguments| && arguments[k] == parameterToExtract + r.value &&
                                    forall j :: 0 <= j < k ==> !StartsWith(arguments[j], parameterToExtract)
  {
    var k := FirstStarting(arguments, parameterToExtract, 0);
    if k == |arguments| then None
    else
      var argument := arguments[k];
      assert argument == parameterToExtract + argument[|parameterToExtract|..];
      Some(argument[|parameterToExtract|..])
  }

  /** `extractHostname`. */
  function ExtractHostname(arguments: seq<string>): (r: Option<string>)
    ensures r.None? <==> forall j :: 0 <= j < |arguments| ==> !StartsWith(arguments[j], HOSTNAME_PARAMETER)
    ensures r.Some? ==> exists k :: 0 <= k < |arguments| && arguments[k] == HOSTNAME_PARAMETER + r.value
  {
    ExtractParameterValue(arguments, HOSTNAME_PARAMETER)
  }

  /** `extractContextPath`. */
  function ExtractContextPath(arguments: seq<string>): (r: Option<string>)
    ensures r.None? <==> forall j :: 0 <= j < |arguments| ==> !StartsWith(arguments[j], CONTEXTPATH_PARAMETER)
    ensures r.Some? ==> exists k :: 0 <= k < |arguments| && arguments[k] == CONTEXTPATH_PARAMETER + r.value
  {
    ExtractParameterValue(arguments, CONTEXTPATH_PARAMETER)
  }

  /**
   * `extractPort`: the first `--port=` argument's text parsed as a decimal `int`, an error
   * when that text does not parse, and -1 when there is no such argument. Later `--port=`
   * arguments are never looked at.
   */
  function ExtractPort(arguments: seq<string>): (r: Result<int, PortError>)
    ensures r.Ok? ==> IsInt32(r.value)
    ensures r.Err? ==> r.error == InvalidPort(INVALID_PORT_MESSAGE)
  {
    var k := FirstStarting(arguments, PORT_PARAMETER, 0);
    if k == |arguments| then Ok(NO_PORT)
    else
      var providedPort := arguments[k][|PORT_PARAMETER|..];
      var parsed := JavaParseInt(providedPort);
      if parsed.None? then Err(InvalidPort(INVALID_PORT_MESSAGE)) else Ok(parsed.value)
  }

  /** Without a `--port=` argument the port is -1. */
  lemma ExtractPortAbsent(arguments: seq<string>)
    requires forall j :: 0 <= j < |arguments| ==> !StartsWith(arguments[j], PORT_PARAMETER)
    ensures ExtractPort(arguments) == Ok(NO_PORT)
  {
  }

  /**
   * Only the first `--port=` argument counts: it decides the port, or the error, whatever
   * the arguments after it say.
   */
  lemma ExtractPortFirstOnly(before: seq<string>, text: string, after: seq<string>)
    requires forall j :: 0 <= j < |before| ==> !StartsWith(before[j], PORT_PARAMETER)
    ensures var r := ExtractPort(before + [PORT_PARAMETER + text] + after);
            var parsed := JavaParseInt(text);
            r == if parsed.Some? then Ok(parsed.value) else Err(InvalidPort(INVALID_PORT_MESSAGE))
  {
    var arguments := before + [PORT_PARAMETER + text] + after;
    FirstStartingPast(arguments, PORT_PARAMETER, before);
    assert arguments[|before|][..|PORT_PARAMETER|] == PORT_PARAMETER;
    assert arguments[|before|][|PORT_PARAMETER|..] == text;
  }

  /** A search that passes over `before` lands on the next argument when that one matches. */
  lemma FirstStartingPast(arguments: seq<string>, prefix: string, before: seq<string>)
    requires |before| < |arguments| && arguments[..|before|] == before
    requires forall j :: 0 <= j < |before| ==> !StartsWith(before[j], prefix)
    requires StartsWith(arguments[|before|], prefix)
    ensures FirstStarting(arguments, prefix, 0) == |before|
  {
  }

  /** A port written with `Integer.toString` is read back, for every 32-bit value. */
  lemma ExtractPortRoundTrip(before: seq<string>, port: int, after: seq<string>)
    requires IsInt32(port)
    requires forall j :: 0 <= j < |before| ==> !StartsWith(before[j], PORT_PARAMETER)
    ensures ExtractPort(before + [PORT_PARAMETER + IntToString(port)] + after) == Ok(port)
  {
    ExtractPortFirstOnly(before, IntToString(port), after);
    ParseIntRoundTrip(port);
  }

  /** A port text that is not a decimal `int` makes the extraction fail. */
  lemma ExtractPortInvalid(before: seq<string>, text: string, after: seq<string>)
    requires forall j :: 0 <= j < |before| ==> !StartsWith(before[j], PORT_PARAMETER)
    requires JavaParseInt(text).None?
    ensures ExtractPort(before + [PORT_PARAMETER + text] + after) == Err(InvalidPort(INVALID_PORT_MESSAGE))
  {
    ExtractPortFirstOnly(before, text, after);
  }

  /** A port number outside the 32-bit range is reported as an invalid port, not cut down. */
  lemma ExtractPortOutOfRange(before: seq<string>, text: string, after: seq<string>)
    requires forall j :: 0 <= j < |before| ==> !StartsWith(before[j], PORT_PARAMETER)
    requires AllDigits(Unsigned(text)) && !IsInt32(SignedValue(text))
    ensures ExtractPort(before + [PORT_PARAMETER + text] + after) == Err(InvalidPort(INVALID_PORT_MESSAGE))
  {
    ParseIntOutOfRange(text);
    ExtractPortInvalid(before, text, after);
  }

  /** `--port=+8025` and `--port=08025` give the same port as `--port=8025`. */
  lemma ExtractPortLeadingZeroOrPlus(before: seq<string>, port: nat, after: seq<string>)
    requires IsInt32(port)
    requires forall j :: 0 <= j < |before| ==> !StartsWith(before[j], PORT_PARAMETER)
    ensures ExtractPort(before + [PORT_PARAMETER + ("0" + NatToString(port))] + after) == Ok(port)
    ensures ExtractPort(before + [PORT_PARAMETER + ("+" + NatToString(port))] + after) == Ok(port)
  {
    ParseIntLeadingZeroOrPlus(port);
    ExtractPortFirstOnly(before, "0" + NatToString(port), after);
    ExtractPortFirstOnly(before, "+" + NatToString(port), after);
  }


  // ---------------------------------------------------------------- defaults

  /** The hostname, port and context path the websocket server starts with. */
  datatype ServerSettings = ServerSettings(hostname: string, port: int, contextPath: string)

  /**
   * `runWebSocketServer`'s substitutions: a missing hostname becomes `localhost`, the port
   * -1 becomes 8025 and a missing context path becomes `/`; every other value is kept,
   * other negative ports included.
   */
  function ResolveSettings(hostname: Option<string>, port: int, contextPath: Option<string>): (s: ServerSettings)
    ensures s.hostname == if hostname.Some? then hostname.value else DEFAULT_HOSTNAME
    ensures s.port == if port != NO_PORT then port else DEFAULT_PORT
    ensures s.contextPath == if contextPath.Some? then contextPath.value else DEFAULT_CONTEXT_PATH
  {
    ServerSettings(
      if hostname.Some? then hostname.value else DEFAULT_HOSTNAME,
      if port != NO_PORT then port else DEFAULT_PORT,
      if contextPath.Some? then contextPath.value else DEFAULT_CONTEXT_PATH)
  }

  /** The websocket branch of `main`: extract the three parameters, then apply the defaults. */
  function WebsocketSettings(arguments: seq<string>): (r: Result<ServerSettings, PortError>)
  {
    var port := ExtractPort(arguments);
    if port.Err? then Err(port.error)
    else Ok(ResolveSettings(ExtractHostname(arguments), port.value, ExtractContextPath(arguments)))
  }

  /** With no parameters given, the server starts on `localhost`, port 8025, context path `/`. */
  lemma WebsocketDefaults(arguments: seq<string>)
    requires forall j :: 0 <= j < |arguments| ==>
               !StartsWith(arguments[j], PORT_PARAMETER) && !StartsWith(arguments[j], HOSTNAME_PARAMETER) &&
               !StartsWith(arguments[j], CONTEXTPATH_PARAMETER)
    ensures WebsocketSettings(arguments) == Ok(ServerSettings(DEFAULT_HOSTNAME, DEFAULT_PORT, DEFAULT_CONTEXT_PATH))
  {
    ExtractPortAbsent(arguments);
  }

  /**
   * An explicit `--port=-1` cannot be told from no port at all: both extract as -1, and the
   * server then starts on port 8025.
   */
  lemma ExplicitMinusOneIsDefault(arguments: seq<string>)
    requires forall j :: 0 <= j < |arguments| ==> !StartsWith(arguments[j], PORT_PARAMETER)
    ensures ExtractPort([PORT_PARAMETER + "-1"] + arguments) == ExtractPort(arguments) == Ok(NO_PORT)
    ensures WebsocketSettings([PORT_PARAMETER + "-1"] + arguments).Ok?
    ensures WebsocketSettings([PORT_PARAMETER + "-1"] + arguments).value.port == DEFAULT_PORT
  {
    assert IntToString(-1) == "-1" by {
      assert NatToString(1) == "1";
    }
    assert [PORT_PARAMETER + "-1"] + arguments == [] + [PORT_PARAMETER + IntToString(-1)] + arguments;
    ExtractPortRoundTrip([], -1, arguments);
    ExtractPortAbsent(arguments);
  }
}
