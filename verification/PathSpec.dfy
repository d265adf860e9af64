/** What a path means to `src/filesystem/path_parser.c`: a drive digit and a list of components. */
module PathSpec {
  import opened Options
  import opened Ram

  const MAX_PATH: int := 108
  const SLASH: Byte := 47
  const COLON: Byte := 58
  const DIGIT_ZERO: Byte := 48

  /** The bytes of a C string, without the terminator. */
  type Text = seq<Byte>

  predicate CString(s: Text) {
    forall i :: 0 <= i < |s| ==> s[i] != 0
  }

  /** `path[i]`, where the terminator can be read. */
  function CharAt(path: Text, i: nat): Byte
    requires i <= |path|
  {
    if i < |path| then path[i] else 0
  }

  predicate IsDigit(c: Byte) {
    48 <= c <= 57
  }

  /** pathparser_valid_format: a digit, a colon and a slash. */
  predicate ValidFormat(path: Text) {
    |path| >= 3 && IsDigit(path[0]) && path[1] == COLON && path[2] == SLASH
  }

  /** The length of the text before the first slash. */
  function PartLength(s: Text): (n: nat)
    ensures n <= |s| && (n < |s| ==> s[n] == SLASH)
    ensures forall i :: 0 <= i < n ==> s[i] != SLASH
  {
    if s == [] || s[0] == SLASH then 0 else 1 + PartLength(s[1..])
  }

  /** The text after the first part and its slash. */
  function AfterPart(s: Text): (r: Text)
    ensures |r| <= |s| && (PartLength(s) > 0 ==> |r| < |s|)
  {
    var n := PartLength(s);
    if n < |s| then s[n + 1..] else []
  }

  /** Parts up to the first empty one. */
  function Components(s: Text): (parts: seq<Text>)
    decreases |s|
  {
    if PartLength(s) == 0 then [] else [s[..PartLength(s)]] + Components(AfterPart(s))
  }

  /** The result of pathparser_parse: nothing, or a drive and components. */
  function Parsed(path: Text): Option<(nat, seq<Text>)> {
    if |path| > MAX_PATH || !ValidFormat(path) then None
    else Some((path[0] - DIGIT_ZERO, Components(path[3..])))
  }

  /** A component that can be printed and parsed. */
  predicate Proper(part: Text) {
    part != [] && SLASH !in part
  }

  predicate AllProper(parts: seq<Text>) {
    forall i :: 0 <= i < |parts| ==> Proper(parts[i])
  }

  function Join(parts: seq<Text>): Text {
    if parts == [] then []
    else if |parts| == 1 then parts[0]
    else parts[0] + [SLASH] + Join(parts[1..])
  }

  function Print(drive: nat, parts: seq<Text>): Text
    requires drive < 10
  {
    [DIGIT_ZERO + drive, COLON, SLASH] + Join(parts)
  }

  lemma PartLengthIs(s: Text, n: nat)
    requires n <= |s| && (n < |s| ==> s[n] == SLASH) && SLASH !in s[..n]
    ensures PartLength(s) == n
  {
    assert forall i :: 0 <= i < n ==> s[i] == s[..n][i];
    PartLengthUnique(s, n);
  }

  lemma {:induction false} PartLengthUnique(s: Text, n: nat)
    requires n <= |s| && (n < |s| ==> s[n] == SLASH)
    requires forall i :: 0 <= i < n ==> s[i] != SLASH
    ensures PartLength(s) == n
  {
    if n > 0 {
      PartLengthUnique(s[1..], n - 1);
    }
  }

  /** Components are non-empty and free of slashes, and take no more room than the text. */
  lemma {:induction false} ComponentsProper(s: Text)
    ensures AllProper(Components(s))
    ensures |Join(Components(s))| <= |s|
    ensures forall i :: 0 <= i < |Components(s)| ==> |Components(s)[i]| <= |s|
    ensures 2 * |Components(s)| <= |s| + 1
    decreases |s|
  {
    var n := PartLength(s);
    if n > 0 {
      ComponentsProper(AfterPart(s));
      assert Components(s)[1..] == Components(AfterPart(s));
    }
  }

  /** Joined proper components parse back to themselves. */
  lemma {:induction false} JoinParses(parts: seq<Text>)
    requires AllProper(parts)
    ensures Components(Join(parts)) == parts
    decreases |parts|
  {
    if parts != [] {
      var s, n := Join(parts), |parts[0]|;
      assert s[..n] == parts[0];
      PartLengthIs(s, n);
      if |parts| == 1 {
        assert Components([]) == [];
      } else {
        JoinParses(parts[1..]);
        assert AfterPart(s) == Join(parts[1..]);
      }
    }
  }

  /** Parsing inverts printing for every drive digit and proper components that fit. */
  lemma PrintParses(drive: nat, parts: seq<Text>)
    requires drive < 10 && AllProper(parts) && |Print(drive, parts)| <= MAX_PATH
    ensures Parsed(Print(drive, parts)) == Some((drive, parts))
  {
    JoinParses(parts);
    assert Print(drive, parts)[3..] == Join(parts);
  }

  /** Printing the result of an accepted path and parsing it again gives the same result. */
  lemma ParsePrintParses(path: Text)
    requires Parsed(path).Some?
    ensures var (drive, parts) := Parsed(path).value;
            && drive < 10 && AllProper(parts)
            && Parsed(Print(drive, parts)) == Parsed(path)
            && (forall i :: 0 <= i < |parts| ==> |parts[i]| < MAX_PATH)
  {
    var (drive, parts) := Parsed(path).value;
    ComponentsProper(path[3..]);
    PrintParses(drive, parts);
  }

  /** Parsing stops at the first empty component: what is left over is nothing, or begins with
      the slash after the last component and then ends or meets another slash. */
  lemma {:induction false} StopsAtEmpty(s: Text) returns (rest: Text)
    ensures s == Join(Components(s)) + rest
    ensures rest == [] || (rest[0] == SLASH && (Components(s) == [] || |rest| == 1 || rest[1] == SLASH))
    decreases |s|
  {
    var n := PartLength(s);
    if n == 0 {
      rest := s;
    } else {
      var tail := AfterPart(s);
      var inner := StopsAtEmpty(tail);
      if n == |s| {
        rest := [];
        assert Components(tail) == [];
      } else if Components(tail) == [] {
        rest := s[n..];
      } else {
        rest := inner;
        StopsLater(s, rest);
      }
    }
  }

  /** Which paths are accepted: at most 108 bytes that begin with a digit, ':' and '/'. */
  lemma AcceptedExact(path: Text)
    ensures Parsed(path).Some? <==>
            3 <= |path| <= 108 && 48 <= path[0] <= 57 && path[1] == 58 && path[2] == 47
    ensures Parsed(path).Some? ==> Parsed(path).value.0 == path[0] - 48
  {
  }

  /** An accepted path is the printed result, and a rest that begins where parsing stops. */
  lemma AcceptedIsPrinted(path: Text) returns (rest: Text)
    requires Parsed(path).Some?
    ensures var (drive, parts) := Parsed(path).value;
            && drive < 10 && path == Print(drive, parts) + rest
            && (rest == [] || (rest[0] == 47 && (parts == [] || |rest| == 1 || rest[1] == 47)))
  {
    var (drive, parts) := Parsed(path).value;
    rest := StopsAtEmpty(path[3..]);
    assert path == [DIGIT_ZERO + drive, COLON, SLASH] + path[3..];
    assert Print(drive, parts) + rest == [DIGIT_ZERO + drive, COLON, SLASH] + (Join(parts) + rest);
  }

  lemma StopsLater(s: Text, rest: Text)
    requires PartLength(s) > 0 && Components(AfterPart(s)) != []
    requires AfterPart(s) == Join(Components(AfterPart(s))) + rest
    ensures s == Join(Components(s)) + rest && Components(s) != []
  {
    var n, more := PartLength(s), Components(AfterPart(s));
    SlashFollows(s);
    JoinMore(s[..n], more);
    Regroup(s, n, Join(more), rest);
  }

  lemma SlashFollows(s: Text)
    ensures Components(AfterPart(s)) != [] ==> PartLength(s) < |s|
  {
    assert Components([]) == [];
  }

  lemma JoinMore(part: Text, more: seq<Text>)
    requires more != []
    ensures Join([part] + more) == part + [SLASH] + Join(more)
  {
    assert ([part] + more)[1..] == more;
  }

  lemma Regroup(s: Text, n: nat, joined: Text, rest: Text)
    requires n < |s| && s[n] == SLASH && s[n + 1..] == joined + rest
    ensures s == s[..n] + [SLASH] + joined + rest
  {
    assert s == s[..n] + [s[n]] + s[n + 1..];
  }
}
