/**
 * DetectorConfig: the bounding-box limits and destination paths, with
 * their defaults, and fromArgs, which reads `--key=value` arguments.
 */
module DetectorConfig {
  import opened Wrappers
  import opened Errors
  import opened StringOps

  /** The six values a configuration holds; a path may be null (None). */
  datatype Settings = Settings(
    minWidth: int, minHeight: int, maxWidth: int, maxHeight: int,
    quarantinePath: Option<string>, moveToFolderPath: Option<string>)

  const DEFAULTS: Settings := Settings(10, 10, 500, 500, Some("quarantine"), Some("output"))

  class Config {
    var minWidth: int
    var minHeight: int
    var maxWidth: int
    var maxHeight: int
    var quarantinePath: Option<string>
    var moveToFolderPath: Option<string>

    function Values(): Settings
      reads this
    {
      Settings(minWidth, minHeight, maxWidth, maxHeight, quarantinePath, moveToFolderPath)
    }

    /** new DetectorConfig(): the field initialisers. */
    constructor ()
      ensures Values() == DEFAULTS
    {
      minWidth := 10;
      minHeight := 10;
      maxWidth := 500;
      maxHeight := 500;
      quarantinePath := Some("quarantine");
      moveToFolderPath := Some("output");
    }

    /** One pass of fromArgs's loop body on this configuration; the exception it throws, if any. */
    method Apply(arg: string) returns (thrown: Option<Exception>)
      modifies this
      ensures thrown.None? ==> ApplyArg(old(Values()), arg) == Success(Values())
      ensures thrown.Some? ==> ApplyArg(old(Values()), arg) == Failure(thrown.value)
    {
      ghost var before := Values();
      if StartsWith(arg, "--minWidth=") {
        var v := IntArg(arg);
        if v.Failure? { return Some(v.error); }
        minWidth := v.value;
      }
      assert SetMinWidth(before, arg) == Success(Values());
      ghost var s1 := Values();
      if StartsWith(arg, "--minHeight=") {
        var v := IntArg(arg);
        if v.Failure? { return Some(v.error); }
        minHeight := v.value;
      }
      assert SetMinHeight(s1, arg) == Success(Values());
      ghost var s2 := Values();
      if StartsWith(arg, "--maxWidth=") {
        var v := IntArg(arg);
        if v.Failure? { return Some(v.error); }
        maxWidth := v.value;
      }
      assert SetMaxWidth(s2, arg) == Success(Values());
      ghost var s3 := Values();
      if StartsWith(arg, "--maxHeight=") {
        var v := IntArg(arg);
        if v.Failure? { return Some(v.error); }
        maxHeight := v.value;
      }
      assert SetMaxHeight(s3, arg) == Success(Values());
      ghost var s4 := Values();
      if StartsWith(arg, "--quarantinePath=") {
        var v := ArgValue(arg);
        if v.Failure? { return Some(v.error); }
        quarantinePath := Some(v.value);
      }
      assert SetQuarantinePath(s4, arg) == Success(Values());
      ghost var s5 := Values();
      if StartsWith(arg, "--moveToFolderPath=") {
        var v := ArgValue(arg);
        if v.Failure? { return Some(v.error); }
        moveToFolderPath := Some(v.value);
      }
      assert SetMoveToFolderPath(s5, arg) == Success(Values());
      return None;
    }
  }

  /** arg.split("=")[1]: ArrayIndexOutOfBoundsException when the split yields fewer than two pieces. */
  function ArgValue(arg: string): Result<string, Exception> {
    var parts := JavaSplit(arg, '=');
    if |parts| > 1 then Success(parts[1]) else Failure(IndexOutOfBounds)
  }

  /** Integer.parseInt(arg.split("=")[1]). */
  function IntArg(arg: string): Result<int, Exception> {
    var text :- ArgValue(arg);
    ParseInt(text)
  }

  /** `if (arg.startsWith("--minWidth=")) config.minWidth = Integer.parseInt(arg.split("=")[1]);` */
  function SetMinWidth(s: Settings, arg: string): Result<Settings, Exception> {
    if StartsWith(arg, "--minWidth=") then var v :- IntArg(arg); Success(s.(minWidth := v)) else Success(s)
  }

  function SetMinHeight(s: Settings, arg: string): Result<Settings, Exception> {
    if StartsWith(arg, "--minHeight=") then var v :- IntArg(arg); Success(s.(minHeight := v)) else Success(s)
  }

  function SetMaxWidth(s: Settings, arg: string): Result<Settings, Exception> {
    if StartsWith(arg, "--maxWidth=") then var v :- IntArg(arg); Success(s.(maxWidth := v)) else Success(s)
  }

  function SetMaxHeight(s: Settings, arg: string): Result<Settings, Exception> {
    if StartsWith(arg, "--maxHeight=") then var v :- IntArg(arg); Success(s.(maxHeight := v)) else Success(s)
  }

  /** `if (arg.startsWith("--quarantinePath=")) config.quarantinePath = arg.split("=")[1];` */
  function SetQuarantinePath(s: Settings, arg: string): Result<Settings, Exception> {
    if StartsWith(arg, "--quarantinePath=") then var v :- ArgValue(arg); Success(s.(quarantinePath := Some(v)))
    else Success(s)
  }

  function SetMoveToFolderPath(s: Settings, arg: string): Result<Settings, Exception> {
    if StartsWith(arg, "--moveToFolderPath=") then var v :- ArgValue(arg); Success(s.(moveToFolderPath := Some(v)))
    else Success(s)
  }

  /** One pass of fromArgs's loop body: the six `if`s in order; the first exception ends the pass. */
  function ApplyArg(s: Settings, arg: string): Result<Settings, Exception> {
    var s1 :- SetMinWidth(s, arg);
    var s2 :- SetMinHeight(s1, arg);
    var s3 :- SetMaxWidth(s2, arg);
    var s4 :- SetMaxHeight(s3, arg);
    var s5 :- SetQuarantinePath(s4, arg);
    SetMoveToFolderPath(s5, arg)
  }

  /** fromArgs: the arguments applied in order to the defaults; the first exception ends the parse. */
  function ParseArgs(args: seq<string>): Result<Settings, Exception> {
    if args == [] then Success(DEFAULTS)
    else
      var s :- ParseArgs(args[..|args| - 1]);
      ApplyArg(s, args[|args| - 1])
  }

  /** DetectorConfig.fromArgs: a fresh config whose fields the arguments overwrite one by one. */
  method FromArgs(args: seq<string>) returns (r: Result<Config, Exception>)
    ensures r.Success? ==> fresh(r.value) && ParseArgs(args) == Success(r.value.Values())
    ensures r.Failure? ==> ParseArgs(args) == Failure(r.error)
  {
    var config := new Config();
    for i := 0 to |args|
      invariant fresh(config)
      invariant ParseArgs(args[..i]) == Success(config.Values())
    {
      ParseArgsStep(args, i, config.Values());
      var thrown := config.Apply(args[i]);
      if thrown.Some? {
        FailurePersists(args, i + 1, thrown.value);
        return Failure(thrown.value);
      }
    }
    assert args[..|args|] == args;
    return Success(config);
  }

  /** One more argument of the loop is applied to the settings parsed so far. */
  lemma ParseArgsStep(args: seq<string>, i: nat, s: Settings)
    requires i < |args| && ParseArgs(args[..i]) == Success(s)
    ensures ParseArgs(args[..i + 1]) == ApplyArg(s, args[i])
  {
    assert args[..i + 1][..i] == args[..i];
  }

  /** Once a prefix of the arguments fails to parse, the whole list fails with the same exception. */
  lemma {:induction false} FailurePersists(args: seq<string>, n: nat, e: Exception)
    requires n <= |args| && ParseArgs(args[..n]) == Failure(e)
    ensures ParseArgs(args) == Failure(e)
    decreases |args| - n
  {
    if n < |args| {
      assert args[..n + 1][..n] == args[..n];
      FailurePersists(args, n + 1, e);
    } else {
      assert args[..n] == args;
    }
  }

  // ---------------------------------------------------------------------
  // Properties

  /** The text of `s` before the first `c`, or all of `s`. */
  function BeforeFirst(s: string, c: char): (r: string)
    ensures |r| <= |s| && r == s[..|r|] && c !in r
    ensures |r| < |s| ==> s[|r|] == c
  {
    if s == [] || s[0] == c then [] else [s[0]] + BeforeFirst(s[1..], c)
  }

  lemma {:induction false} IndexOfFirstChar(p: string, c: char, q: string)
    requires c !in p
    ensures IndexOf(p + [c] + q, [c]) == Some(|p|)
    decreases |p|
  {
    var s := p + [c] + q;
    if p != [] {
      assert s[0] == p[0] && s[..1] == [s[0]];
      assert s[1..] == p[1..] + [c] + q;
      IndexOfFirstChar(p[1..], c, q);
    } else {
      assert s[..1] == [c];
    }
  }

  /** The first piece of a split is the text before the first separator. */
  lemma {:induction false} SplitOnFirstPiece(s: string, c: char)
    ensures SplitOn(s, [c])[0] == BeforeFirst(s, c)
  {
    var b := BeforeFirst(s, c);
    if |b| < |s| {
      assert s == b + [c] + s[|b| + 1..];
      IndexOfFirstChar(b, c, s[|b| + 1..]);
    }
  }

  predicate AllEmpty(parts: seq<string>) {
    forall k :: 0 <= k < |parts| ==> parts[k] == ""
  }

  predicate AllChar(s: string, c: char) {
    forall k :: 0 <= k < |s| ==> s[k] == c
  }

  lemma AllEmptyCons(head: string, tail: seq<string>)
    ensures AllEmpty([head] + tail) <==> head == "" && AllEmpty(tail)
  {
    var parts := [head] + tail;
    assert parts[0] == head;
    assert forall k :: 0 <= k < |tail| ==> parts[k + 1] == tail[k];
    if head == "" && AllEmpty(tail) {
      forall k | 0 <= k < |parts| ensures parts[k] == "" {
        if k > 0 { assert parts[k] == tail[k - 1]; }
      }
    }
  }

  lemma AllCharCons(s: string, c: char)
    requires s != []
    ensures AllChar(s, c) <==> s[0] == c && AllChar(s[1..], c)
  {
    if s[0] == c && AllChar(s[1..], c) {
      forall k | 0 <= k < |s| ensures s[k] == c {
        if k > 0 { assert s[k] == s[1..][k - 1]; }
      }
    }
  }

  /** Every piece of a split is empty exactly when the string consists of separators only. */
  lemma {:induction false} SplitOnAllEmpty(s: string, c: char)
    ensures AllEmpty(SplitOn(s, [c])) <==> AllChar(s, c)
    decreases |s|
  {
    var parts := SplitOn(s, [c]);
    var b := BeforeFirst(s, c);
    SplitOnFirstPiece(s, c);
    if |b| < |s| {
      var rest := s[|b| + 1..];
      assert s == b + [c] + rest;
      IndexOfFirstChar(b, c, rest);
      assert parts == [b] + SplitOn(rest, [c]);
      SplitOnAllEmpty(rest, c);
      AllEmptyCons(b, SplitOn(rest, [c]));
      AllCharCons(s, c);
      if b == [] {
        assert s[1..] == rest;
      } else {
        assert s[0] == b[0] != c;
      }
    } else {
      assert b == s;
      if s != [] {
        assert parts[0] == s && s[0] != c;
      }
    }
  }

  /** Dropping trailing empties from a list that starts with a non-empty piece keeps that piece first. */
  lemma {:induction false} DropTrailingEmptyCons(head: string, tail: seq<string>)
    requires head != ""
    ensures DropTrailingEmpty([head] + tail) == [head] + DropTrailingEmpty(tail)
    decreases |tail|
  {
    var parts := [head] + tail;
    if tail != [] && tail[|tail| - 1] == "" {
      assert parts[..|parts| - 1] == [head] + tail[..|tail| - 1];
      DropTrailingEmptyCons(head, tail[..|tail| - 1]);
    }
  }

  /** Splitting `key=rest` on '=' gives the key, then the pieces of `rest` less its trailing empties. */
  lemma JavaSplitKeyRest(key: string, rest: string)
    requires key != "" && '=' !in key
    ensures JavaSplit(key + "=" + rest, '=') == [key] + DropTrailingEmpty(SplitOn(rest, ['=']))
  {
    var arg := key + "=" + rest;
    assert arg == key + ['='] + rest;
    IndexOfFirstChar(key, '=', rest);
    assert arg[|key| + 1..] == rest;
    assert arg[..|key|] == key;
    assert SplitOn(arg, ['=']) == [key] + SplitOn(rest, ['=']);
    assert arg[|key|] == '=';
    DropTrailingEmptyCons(key, SplitOn(rest, ['=']));
  }

  /** Dropping trailing empties leaves something exactly when some piece is non-empty, and then the first piece stays. */
  lemma DropTrailingEmptyNonEmpty(parts: seq<string>)
    requires parts != []
    ensures DropTrailingEmpty(parts) != [] <==> exists k :: 0 <= k < |parts| && parts[k] != ""
    ensures DropTrailingEmpty(parts) != [] ==> DropTrailingEmpty(parts)[0] == parts[0]
  {
    var kept := DropTrailingEmpty(parts);
    if exists k :: 0 <= k < |parts| && parts[k] != "" {
      var k :| 0 <= k < |parts| && parts[k] != "";
    }
    if kept != [] {
      assert parts[|kept| - 1] == kept[|kept| - 1];
    }
  }

  /** Something other than '=' follows: `split("=")` then yields a second piece. */
  predicate HasValue(rest: string) {
    exists k :: 0 <= k < |rest| && rest[k] != '='
  }

  /** A `--key=` prefix: a non-empty key followed by its only '='. */
  predicate IsKeyPrefix(p: string) {
    |p| >= 2 && p[|p| - 1] == '=' && '=' !in p[..|p| - 1]
  }

  /**
   * The value fromArgs reads from `key=rest` is the text between the first
   * and the second '=' (or the end); when everything after the first '=' is
   * '=' (in particular when it is empty) the split has one piece and
   * indexing it throws.
   */
  lemma ArgValueBetweenEquals(prefix: string, rest: string)
    requires IsKeyPrefix(prefix)
    ensures ArgValue(prefix + rest) ==
      if HasValue(rest) then Success(BeforeFirst(rest, '=')) else Failure(IndexOutOfBounds)
  {
    var key := prefix[..|prefix| - 1];
    assert prefix + rest == key + "=" + rest by { assert prefix == key + "="; }
    var tail := SplitOn(rest, ['=']);
    JavaSplitKeyRest(key, rest);
    SplitOnAllEmpty(rest, '=');
    SplitOnFirstPiece(rest, '=');
    DropTrailingEmptyNonEmpty(tail);
  }

  /** The prefixes fromArgs recognises are told apart by their third to sixth characters. */
  lemma PrefixesDistinct(arg: string)
    ensures StartsWith(arg, "--quarantinePath=") ==>
      (!StartsWith(arg, "--minWidth=") && !StartsWith(arg, "--minHeight=") && !StartsWith(arg, "--maxWidth=")
       && !StartsWith(arg, "--maxHeight=") && !StartsWith(arg, "--moveToFolderPath="))
    ensures StartsWith(arg, "--moveToFolderPath=") ==>
      (!StartsWith(arg, "--minWidth=") && !StartsWith(arg, "--minHeight=") && !StartsWith(arg, "--maxWidth=")
       && !StartsWith(arg, "--maxHeight="))
    ensures StartsWith(arg, "--minWidth=") ==>
      (!StartsWith(arg, "--minHeight=") && !StartsWith(arg, "--maxWidth=") && !StartsWith(arg, "--maxHeight="))
  {
    if StartsWith(arg, "--quarantinePath=") {
      assert arg[2] == "--quarantinePath="[2];
    }
    if StartsWith(arg, "--moveToFolderPath=") {
      assert arg[3] == "--moveToFolderPath="[3];
    }
    if StartsWith(arg, "--minWidth=") {
      assert arg[3] == "--minWidth="[3] && arg[5] == "--minWidth="[5];
    }
  }

  /** With the quarantine prefix, the path becomes the value read, or the read's exception is thrown. */
  lemma OnlyQuarantinePath(s: Settings, arg: string)
    requires StartsWith(arg, "--quarantinePath=")
    ensures ApplyArg(s, arg) ==
      if ArgValue(arg).Success? then Success(s.(quarantinePath := Some(ArgValue(arg).value)))
      else Failure(ArgValue(arg).error)
  {
    PrefixesDistinct(arg);
    assert SetMinWidth(s, arg) == SetMinHeight(s, arg) == SetMaxWidth(s, arg) == SetMaxHeight(s, arg) == Success(s);
  }

  /** With the move-to-folder prefix, the path becomes the value read, or the read's exception is thrown. */
  lemma OnlyMoveToFolderPath(s: Settings, arg: string)
    requires StartsWith(arg, "--moveToFolderPath=")
    ensures ApplyArg(s, arg) ==
      if ArgValue(arg).Success? then Success(s.(moveToFolderPath := Some(ArgValue(arg).value)))
      else Failure(ArgValue(arg).error)
  {
    PrefixesDistinct(arg);
    assert SetMinWidth(s, arg) == SetMinHeight(s, arg) == SetMaxWidth(s, arg) == SetMaxHeight(s, arg) == Success(s);
    assert SetQuarantinePath(s, arg) == Success(s);
  }

  /** An argument with the minimum-width prefix passes through the other five `if`s unchanged. */
  lemma OnlyMinWidth(s: Settings, arg: string)
    requires StartsWith(arg, "--minWidth=")
    ensures ApplyArg(s, arg) == SetMinWidth(s, arg)
  {
    PrefixesDistinct(arg);
    if SetMinWidth(s, arg).Success? {
      var s1 := SetMinWidth(s, arg).value;
      assert SetMinHeight(s1, arg) == SetMaxWidth(s1, arg) == SetMaxHeight(s1, arg) == Success(s1);
      assert SetQuarantinePath(s1, arg) == SetMoveToFolderPath(s1, arg) == Success(s1);
    }
  }

  /** The two path prefixes are key prefixes: their only '=' is their last character. */
  lemma PathKeyPrefixes()
    ensures IsKeyPrefix("--quarantinePath=") && IsKeyPrefix("--moveToFolderPath=")
  {
  }

  /** `--quarantinePath=rest` sets the path to the text before any further '=', or throws when there is none. */
  lemma QuarantinePathArg(s: Settings, rest: string)
    ensures ApplyArg(s, "--quarantinePath=" + rest) ==
      if HasValue(rest) then Success(s.(quarantinePath := Some(BeforeFirst(rest, '='))))
      else Failure(IndexOutOfBounds)
  {
    var arg := "--quarantinePath=" + rest;
    StartsWithConcat("--quarantinePath=", rest);
    OnlyQuarantinePath(s, arg);
    PathKeyPrefixes();
    ArgValueBetweenEquals("--quarantinePath=", rest);
    if HasValue(rest) {
      assert ArgValue(arg) == Success(BeforeFirst(rest, '='));
    } else {
      assert ArgValue(arg) == Failure(IndexOutOfBounds);
    }
  }

  /** `--moveToFolderPath=rest` sets the path to the text before any further '=', or throws when there is none. */
  lemma MoveToFolderPathArg(s: Settings, rest: string)
    ensures ApplyArg(s, "--moveToFolderPath=" + rest) ==
      if HasValue(rest) then Success(s.(moveToFolderPath := Some(BeforeFirst(rest, '='))))
      else Failure(IndexOutOfBounds)
  {
    var arg := "--moveToFolderPath=" + rest;
    StartsWithConcat("--moveToFolderPath=", rest);
    OnlyMoveToFolderPath(s, arg);
    PathKeyPrefixes();
    ArgValueBetweenEquals("--moveToFolderPath=", rest);
    if HasValue(rest) {
      assert ArgValue(arg) == Success(BeforeFirst(rest, '='));
    } else {
      assert ArgValue(arg) == Failure(IndexOutOfBounds);
    }
  }

  /** `--key=` with nothing after the '=' throws ArrayIndexOutOfBoundsException. */
  lemma EmptyValueRaisesIndexError(prefix: string)
    requires IsKeyPrefix(prefix)
    ensures ArgValue(prefix) == Failure(IndexOutOfBounds)
    ensures IntArg(prefix) == Failure(IndexOutOfBounds)
  {
    ArgValueBetweenEquals(prefix, "");
    assert prefix + "" == prefix;
  }

  /** An int value is stored as given: any int, negative or above the maximum, with no range check. */
  lemma IntArgOfDecimal(prefix: string, n: int)
    requires IsKeyPrefix(prefix) && INT_MIN <= n <= INT_MAX
    ensures IntArg(prefix + IntToString(n)) == Success(n)
  {
    var text := IntToString(n);
    assert text != [] && text[|text| - 1] != '=' by {
      if n < 0 { assert text == "-" + NatToString(-n); }
      assert IsDigit(text[|text| - 1]);
    }
    assert forall k :: 0 <= k < |text| ==> text[k] != '=' by {
      forall k | 0 <= k < |text| ensures text[k] != '=' {
        if n < 0 && k > 0 {
          assert text[k] == NatToString(-n)[k - 1];
        } else if n >= 0 {
          assert text[k] == NatToString(n)[k];
        }
      }
    }
    assert BeforeFirst(text, '=') == text;
    ArgValueBetweenEquals(prefix, text);
    ParseIntOfIntToString(n);
  }

  /** `--minWidth=n` sets the minimum width to n and leaves every other field as it was. */
  lemma MinWidthArg(s: Settings, n: int)
    requires INT_MIN <= n <= INT_MAX
    ensures ApplyArg(s, "--minWidth=" + IntToString(n)) == Success(s.(minWidth := n))
  {
    var arg := "--minWidth=" + IntToString(n);
    IntArgOfDecimal("--minWidth=", n);
    StartsWithConcat("--minWidth=", IntToString(n));
    OnlyMinWidth(s, arg);
  }

  /** A later `--minWidth=` overrides an earlier one; no range check and no min <= max check applies. */
  lemma {:induction false} LaterMinWidthWins(args: seq<string>, n: int)
    requires INT_MIN <= n <= INT_MAX && ParseArgs(args).Success?
    ensures ParseArgs(args + ["--minWidth=" + IntToString(n)]) == Success(ParseArgs(args).value.(minWidth := n))
  {
    var all := args + ["--minWidth=" + IntToString(n)];
    assert all[..|all| - 1] == args;
    MinWidthArg(ParseArgs(args).value, n);
  }

  predicate Recognised(arg: string) {
    StartsWith(arg, "--minWidth=") || StartsWith(arg, "--minHeight=") || StartsWith(arg, "--maxWidth=")
    || StartsWith(arg, "--maxHeight=") || StartsWith(arg, "--quarantinePath=") || StartsWith(arg, "--moveToFolderPath=")
  }

  /** Arguments without a recognised prefix are ignored, wherever they stand. */
  lemma {:induction false} UnrecognisedIgnored(args: seq<string>, arg: string)
    requires !Recognised(arg)
    ensures ParseArgs(args + [arg]) == ParseArgs(args)
  {
    var all := args + [arg];
    assert all[..|all| - 1] == args;
  }

  /** fromArgs never produces a null path: it starts from non-null defaults and only stores split results. */
  lemma {:induction false} PathsNeverNull(args: seq<string>)
    requires ParseArgs(args).Success?
    ensures ParseArgs(args).value.quarantinePath.Some? && ParseArgs(args).value.moveToFolderPath.Some?
  {
    if args != [] {
      PathsNeverNull(args[..|args| - 1]);
    }
  }
}
