/** The desktop shell's startup handoff (src-tauri/src/lib.rs): the
    case-insensitive model-extension test on a path, the choice of the first
    supported command-line argument, the take-once pending slot and the
    greeting command. Paths use the Unix separator '/'. */
module Startup {
  import opened Options
  import opened Text

  /** greet: the fixed greeting around the given name. */
  function Greet(name: string): (r: string)
    ensures |r| == |name| + 39
    ensures r[..7] == "Hello, " && r[|r| - 32..] == "! You've been greeted from Rust!"
  {
    "Hello, " + name + "! You've been greeted from Rust!"
  }

  /** The name sits between the fixed prefix and suffix, so the greeting
      determines it. */
  lemma GreetRecoversName(name: string)
    ensures Greet(name)[7..|Greet(name)| - 32] == name
  {
    var r := Greet(name);
    assert r == "Hello, " + name + "! You've been greeted from Rust!";
    assert r[7..7 + |name|] == name;
  }

  lemma GreetInjective(a: string, b: string)
    requires Greet(a) == Greet(b)
    ensures a == b
  {
    GreetRecoversName(a);
    GreetRecoversName(b);
  }

  /** The last component of a path that is a file name, as
      std::path::Path::file_name computes it: empty pieces (repeated or
      trailing separators) and "." pieces are normalised away; a path that
      has no such piece, or ends in "..", has no file name. */
  function FileName(path: string): (r: Option<string>)
    ensures r.Some? ==> r.value != "" && r.value != "." && r.value != ".." && '/' !in r.value
    ensures var ps := Split(path, '/'); var k := LastNamedIndex(ps);
            r.Some? <==> k.Some? && ps[k.value] != ".."
    ensures var ps := Split(path, '/'); var k := LastNamedIndex(ps);
            r.Some? ==> r.value == ps[k.value]
  {
    var pieces := Split(path, '/');
    SplitPiecesAreSeparatorFree(path, '/');
    LastNamedPiece(pieces)
  }

  /** The last piece other than "" and ".", unless it is "..". */
  function LastNamedPiece(pieces: seq<string>): (r: Option<string>)
    ensures r.Some? ==> r.value in pieces && r.value != "" && r.value != "." && r.value != ".."
    ensures r.Some? <==> LastNamedIndex(pieces).Some? && pieces[LastNamedIndex(pieces).value] != ".."
    ensures r.Some? ==> r.value == pieces[LastNamedIndex(pieces).value]
  {
    match LastNamedIndex(pieces)
    case None => None
    case Some(k) => if pieces[k] == ".." then None else Some(pieces[k])
  }

  /** Index of the last piece other than "" and ".". */
  function LastNamedIndex(pieces: seq<string>): (r: Option<nat>)
    ensures r.Some? ==>
              r.value < |pieces| && pieces[r.value] !in {"", "."} &&
              forall k :: r.value < k < |pieces| ==> pieces[k] in {"", "."}
    ensures r.None? ==> forall k :: 0 <= k < |pieces| ==> pieces[k] in {"", "."}
  {
    if |pieces| == 0 then None
    else if pieces[|pieces| - 1] !in {"", "."} then Some(|pieces| - 1)
    else LastNamedIndex(pieces[..|pieces| - 1])
  }

  /** Index of the last '.' in s. */
  function LastDot(s: string): (r: Option<nat>)
    ensures r.Some? ==> r.value < |s| && s[r.value] == '.' && '.' !in s[r.value + 1..]
    ensures r.None? ==> '.' !in s
  {
    if |s| == 0 then None
    else if s[|s| - 1] == '.' then Some(|s| - 1)
    else
      var r := LastDot(s[..|s| - 1]);
      assert s == s[..|s| - 1] + [s[|s| - 1]];
      r
  }

  /** Path::extension: the extension of the file name, if any. */
  function Extension(path: string): (r: Option<string>)
    ensures r.Some? ==> '.' !in r.value && '/' !in r.value
    ensures r.Some? <==> FileName(path).Some? && LastDot(FileName(path).value).Some? && LastDot(FileName(path).value).value > 0
    ensures r.Some? ==> EndsWith(FileName(path).value, "." + r.value)
  {
    match FileName(path)
    case None => None
    case Some(name) => NameExtension(name)
  }

  /** The part of a file name after its last '.', when that dot is not the
      name's first character (rsplit_file_at_dot). */
  function NameExtension(name: string): (r: Option<string>)
    ensures r.Some? ==> '.' !in r.value && (('/' !in name) ==> '/' !in r.value)
    ensures r.Some? <==> LastDot(name).Some? && LastDot(name).value > 0
    ensures r.Some? ==> EndsWith(name, "." + r.value)
  {
    match LastDot(name)
    case None => None
    case Some(i) =>
      if i == 0 then None
      else
        assert name[i..] == "." + name[i + 1..];
        Some(name[i + 1..])
  }

  /** The extension test on a file name. */
  predicate IsModelExtension(ext: Option<string>)
  {
    ext.Some? && (ToLower(ext.value) == "stl" || ToLower(ext.value) == "3mf")
  }

  /** is_supported_model_path: the extension, lowered in ASCII, is "stl"
      or "3mf". */
  predicate IsSupportedModelPath(path: string)
  {
    IsModelExtension(Extension(path))
  }

  /** The last four characters of name, lowered, are ".stl" or ".3mf", and
      something precedes them. */
  predicate HasModelSuffix(name: string)
  {
    |name| > 4 && ToLower(name[|name| - 4..]) in {".stl", ".3mf"}
  }

  /** A path is supported exactly when it has a file name of more than four
      characters whose last four, lowered, are ".stl" or ".3mf". */
  lemma SupportedPathIffSuffix(path: string)
    ensures IsSupportedModelPath(path) <==> FileName(path).Some? && HasModelSuffix(FileName(path).value)
  {
    if FileName(path).Some? {
      var name := FileName(path).value;
      if IsModelExtension(NameExtension(name)) {
        SupportedExtensionHasSuffix(name);
      }
      if HasModelSuffix(name) {
        SuffixGivesSupportedExtension(name);
      }
    }
  }

  lemma SupportedExtensionHasSuffix(name: string)
    requires IsModelExtension(NameExtension(name))
    ensures HasModelSuffix(name)
  {
    var i := LastDot(name).value;
    var ext := name[i + 1..];
    assert |ext| == 3 && i > 0;
    var tail := name[i..];
    assert tail == ['.'] + ext;
    assert ToLower(tail) == ['.'] + ToLower(ext) by {
      assert ToLower(tail)[0] == '.';
      assert ToLower(tail)[1..] == ToLower(ext) by { ToLowerSuffix(tail, 1); }
    }
    assert i == |name| - 4;
    if ToLower(ext) == "stl" {
      assert ['.'] + "stl" == ".stl";
    } else {
      assert ['.'] + "3mf" == ".3mf";
    }
  }

  lemma SuffixGivesSupportedExtension(name: string)
    requires HasModelSuffix(name)
    ensures IsModelExtension(NameExtension(name))
  {
    var tail := name[|name| - 4..];
    assert tail[0] == '.' by { assert LowerChar(tail[0]) == '.'; }
    forall j | 1 <= j < 4
      ensures tail[j] != '.'
    {
      assert LowerChar(tail[j]) != '.';
    }
    LastDotOfSuffix(name, |name| - 4);
    assert ToLower(name[|name| - 3..]) == ToLower(tail)[1..] by {
      ToLowerSuffix(tail, 1);
      assert tail[1..] == name[|name| - 3..];
    }
    if ToLower(tail) == ".stl" {
      assert ToLower(tail)[1..] == "stl";
    } else {
      assert ToLower(tail)[1..] == "3mf";
    }
  }

  /** When the character at i is a dot and none follows it, i is the last dot. */
  lemma LastDotOfSuffix(s: string, i: nat)
    requires i < |s| && s[i] == '.' && forall j :: i < j < |s| ==> s[j] != '.'
    ensures LastDot(s) == Some(i)
  {
  }

  /** The index of the first true flag. */
  function FirstTrue(flags: seq<bool>): (r: Option<nat>)
    ensures r.Some? ==> r.value < |flags| && flags[r.value] && forall j :: 0 <= j < r.value ==> !flags[j]
    ensures r.None? ==> forall j :: 0 <= j < |flags| ==> !flags[j]
  {
    if |flags| == 0 then None
    else if flags[0] then Some(0)
    else
      var rest := flags[1..];
      var r := FirstTrue(rest);
      assert forall j :: 1 <= j < |flags| ==> flags[j] == rest[j - 1];
      if r.None? then None else Some(r.value + 1)
  }

  /** The first supported path of args, in order. */
  function FirstSupported(args: seq<string>): (r: Option<nat>)
    ensures r.Some? ==>
              r.value < |args| && IsSupportedModelPath(args[r.value]) &&
              forall j :: 0 <= j < r.value ==> !IsSupportedModelPath(args[j])
    ensures r.None? ==> forall j :: 0 <= j < |args| ==> !IsSupportedModelPath(args[j])
  {
    var flags := seq(|args|, i requires 0 <= i < |args| => IsSupportedModelPath(args[i]));
    var r := FirstTrue(flags);
    assert forall j :: 0 <= j < |args| ==> flags[j] == IsSupportedModelPath(args[j]);
    r
  }

  /** startup_file_from_args: skips argv[0] and returns the first argument
      whose extension is supported. */
  function StartupFileFromArgs(args: seq<string>): (r: Option<string>)
    ensures r.Some? <==> exists i :: 1 <= i < |args| && IsSupportedModelPath(args[i])
    ensures r.Some? ==>
              exists i ::
                1 <= i < |args| && args[i] == r.value && IsSupportedModelPath(args[i]) &&
                forall j :: 1 <= j < i ==> !IsSupportedModelPath(args[j])
  {
    if |args| <= 1 then None
    else
      match FirstSupported(args[1..])
      case None => None
      case Some(k) =>
        assert args[k + 1] == args[1..][k];
        Some(args[k + 1])
  }

  /** The managed PendingFile state: one slot holding the startup path until
      the front end takes it. */
  class PendingFile {
    var slot: Option<string>

    /** run(): the slot starts as the startup file chosen from the
        arguments. */
    constructor (args: seq<string>)
      ensures slot == StartupFileFromArgs(args)
    {
      slot := StartupFileFromArgs(args);
    }

    /** consume_pending_file: returns the stored path and leaves the slot
        empty. */
    method Consume() returns (r: Option<string>)
      modifies this
      ensures r == old(slot)
      ensures slot == None
    {
      r := slot;
      slot := None;
    }
  }

  /** A second consume always yields nothing. */
  method ConsumeTwice(p: PendingFile) returns (first: Option<string>, second: Option<string>)
    modifies p
    ensures first == old(p.slot)
    ensures second == None && p.slot == None
  {
    first := p.Consume();
    second := p.Consume();
  }
}
