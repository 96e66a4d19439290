/** Choosing the parser for a model file (src/main.js, loadFromFile) and the
    name and MIME type given to a file read through the desktop shell
    (loadFileFromTauriPath). */
module Formats {
  import opened Text

  newtype byte = x: int | 0 <= x < 256

  datatype Format = Stl | ThreeMf

  /** isSupportedModelName, character by character: the last four
      characters, lowered, are ".stl" or ".3mf" (SupportedNameIffSuffix). */
  predicate IsSupportedModelName(name: string)
  {
    var n := |name|;
    n >= 4 && LowerChar(name[n - 4]) == '.' &&
    ((LowerChar(name[n - 3]) == 's' && LowerChar(name[n - 2]) == 't' && LowerChar(name[n - 1]) == 'l') ||
     (LowerChar(name[n - 3]) == '3' && LowerChar(name[n - 2]) == 'm' && LowerChar(name[n - 1]) == 'f'))
  }

  /** isSupportedModelName is the suffix test on the lowered name. */
  lemma SupportedNameIffSuffix(name: string)
    ensures IsSupportedModelName(name) <==> EndsWith(ToLower(name), ".stl") || EndsWith(ToLower(name), ".3mf")
  {
    var l := ToLower(name);
    if |l| >= 4 {
      var t := l[|l| - 4..];
      assert t[0] == LowerChar(name[|name| - 4]) && t[1] == LowerChar(name[|name| - 3]);
      assert t[2] == LowerChar(name[|name| - 2]) && t[3] == LowerChar(name[|name| - 1]);
      if t == ".stl" || t == ".3mf" {
        assert IsSupportedModelName(name);
      }
      if IsSupportedModelName(name) {
        assert t == ".stl" || t == ".3mf";
      }
    }
  }

  /** The initial isSTL: an STL extension or an STL-like MIME type. */
  predicate StlHint(name: string, mime: string)
  {
    var n, m := ToLower(name), ToLower(mime);
    EndsWith(n, ".stl") || Contains(m, "stl") || Contains(m, "sla")
  }

  /** The initial is3MF: a 3MF extension or a 3MF-like MIME type. */
  predicate ThreeMfHint(name: string, mime: string)
  {
    var n, m := ToLower(name), ToLower(mime);
    EndsWith(n, ".3mf") || Contains(m, "3mf") || Contains(m, "3dmanufacturing")
  }

  /** A ZIP container starts with the bytes "PK". */
  predicate LooksLikeZip(bytes: seq<byte>)
  {
    |bytes| >= 2 && bytes[0] == 0x50 && bytes[1] == 0x4B
  }

  /** The parser loadFromFile runs: STL whenever isSTL ends up set, which
      happens for any STL hint, and, when neither kind of hint is present,
      for content that is not a ZIP container. */
  function DetectFormat(name: string, mime: string, bytes: seq<byte>): (f: Format)
    ensures StlHint(name, mime) ==> f == Stl
    ensures !StlHint(name, mime) && ThreeMfHint(name, mime) ==> f == ThreeMf
    ensures !StlHint(name, mime) && !ThreeMfHint(name, mime) ==> (f == ThreeMf <==> LooksLikeZip(bytes))
  {
    var isStl := StlHint(name, mime);
    var is3mf := ThreeMfHint(name, mime);
    var isStl' := if !isStl && !is3mf then !LooksLikeZip(bytes) else isStl;
    if isStl' then Stl else ThreeMf
  }

  /** With any hint present, the content is not looked at. */
  lemma HintMakesBytesIrrelevant(name: string, mime: string, b1: seq<byte>, b2: seq<byte>)
    requires StlHint(name, mime) || ThreeMfHint(name, mime)
    ensures DetectFormat(name, mime, b1) == DetectFormat(name, mime, b2)
  {
  }

  /** Sniffing: with no hint, 3MF exactly for a "PK" prefix. */
  lemma {:induction false} SniffingOnlyWithoutHint(name: string, mime: string, bytes: seq<byte>)
    requires !StlHint(name, mime) && !ThreeMfHint(name, mime)
    ensures DetectFormat(name, mime, bytes) == ThreeMf <==>
              |bytes| >= 2 && bytes[0] == 0x50 && bytes[1] == 0x4B
  {
  }

  /** STL wins when both kinds of hint match, e.g. a ".3mf" name sent with
      the MIME type "model/stl". */
  lemma StlWinsOverThreeMf(name: string, bytes: seq<byte>)
    requires EndsWith(ToLower(name), ".3mf")
    ensures ThreeMfHint(name, "model/stl")
    ensures DetectFormat(name, "model/stl", bytes) == Stl
  {
    assert ToLower("model/stl") == "model/stl";
    ContainsMiddle("model/", "stl", "");
    assert "model/" + "stl" + "" == "model/stl";
  }

  const DefaultTauriName := "model.stl"
  const OctetStream := "application/octet-stream"
  const StlMime := "model/stl"
  /** "application/vnd.ms-package.3dmanufacturing-3dmodel+xml", kept in
      pieces around its only 's' so that facts about it are proved piece by
      piece. */
  const ThreeMfMime := MimeHead + "s" + MimeTail
  const MimeHead := "application/vnd.m"
  const MimeTail := "-package." + "3dmanufacturing" + "-3dmodel+xml"

  /** The last '/' or '\' separated piece of the path, or "model.stl" when
      that piece is empty. */
  function TauriFileName(path: string): (name: string)
    ensures name != ""
    ensures '/' !in name && '\\' !in name
    ensures AfterLast(path, {'/', '\\'}) != "" ==> name == AfterLast(path, {'/', '\\'})
    ensures AfterLast(path, {'/', '\\'}) == "" ==> name == DefaultTauriName
  {
    var last := AfterLast(path, {'/', '\\'});
    if last == "" then DefaultTauriName else last
  }

  /** The MIME type chosen from the lowered file name: a ".3mf" check that
      runs after, and so overrides, the ".stl" one. */
  function TauriMime(fileName: string): (mime: string)
    ensures EndsWith(ToLower(fileName), ".3mf") ==> mime == ThreeMfMime
    ensures EndsWith(ToLower(fileName), ".stl") ==> mime == StlMime
    ensures !IsSupportedModelName(fileName) ==> mime == OctetStream
  {
    var lowered := ToLower(fileName);
    var m := if EndsWith(lowered, ".stl") then StlMime else OctetStream;
    if EndsWith(lowered, ".3mf") then ThreeMfMime else m
  }

  /** The 3MF MIME type is already lower case. */
  lemma ThreeMfMimeIsLower()
    ensures ToLower(ThreeMfMime) == ThreeMfMime
  {
    ToLowerConcat(MimeHead + "s" + "-package." + "3dmanufacturing", "-3dmodel+xml");
    ToLowerConcat(MimeHead + "s" + "-package.", "3dmanufacturing");
    ToLowerConcat(MimeHead + "s", "-package.");
    ToLowerConcat(MimeHead, "s");
    assert ToLower(MimeHead) == MimeHead;
    assert ToLower("s") == "s";
    assert ToLower("-package.") == "-package.";
    assert ToLower("3dmanufacturing") == "3dmanufacturing";
    assert ToLower("-3dmodel+xml") == "-3dmodel+xml";
  }

  /** The 3MF MIME type names "3dmanufacturing" and neither "stl" nor "sla". */
  lemma ThreeMfMimeHints()
    ensures Contains(ThreeMfMime, "3dmanufacturing")
    ensures !Contains(ThreeMfMime, "stl") && !Contains(ThreeMfMime, "sla")
  {
    assert ThreeMfMime == (MimeHead + "s" + "-package.") + "3dmanufacturing" + "-3dmodel+xml";
    ContainsMiddle(MimeHead + "s" + "-package.", "3dmanufacturing", "-3dmodel+xml");
    ThreeMfMimeLacks("stl");
    ThreeMfMimeLacks("sla");
  }

  /** Its only 's' is followed by '-', so no "s?" other than "s-" occurs. */
  lemma ThreeMfMimeLacks(sub: string)
    requires |sub| >= 2 && sub[0] == 's' && sub[1] != '-'
    ensures !Contains(ThreeMfMime, sub)
  {
    MimePiecesLackS();
    NotContainsWithoutHead(MimeTail, sub);
    FromTheS(sub);
    ContainsAfterHeadFree(MimeHead, "s" + MimeTail, sub);
    assert ThreeMfMime == MimeHead + ("s" + MimeTail);
  }

  lemma MimePiecesLackS()
    ensures 's' !in MimeHead && 's' !in MimeTail
  {
  }

  lemma FromTheS(sub: string)
    requires |sub| >= 2 && sub[0] == 's' && sub[1] != '-'
    requires !Contains(MimeTail, sub)
    ensures !Contains("s" + MimeTail, sub)
  {
    assert ("s" + MimeTail)[1..] == MimeTail;
    assert ("s" + MimeTail)[1] == '-';
  }

  /** A file read from a path ending in ".3mf" (any case) is parsed as 3MF,
      whatever its content. */
  lemma TauriThreeMfPathLoadsAsThreeMf(path: string, bytes: seq<byte>)
    requires EndsWith(ToLower(path), ".3mf")
    ensures DetectFormat(TauriFileName(path), TauriMime(TauriFileName(path)), bytes) == ThreeMf
  {
    TauriNameKeepsSuffix(path, ".3mf");
    ThreeMfNameLoadsAsThreeMf(TauriFileName(path), bytes);
  }

  /** ... and is typed with the 3MF MIME type, which names
      "3dmanufacturing" (ThreeMfMimeHints). */
  lemma TauriThreeMfPathGetsThreeMfMime(path: string)
    requires EndsWith(ToLower(path), ".3mf")
    ensures TauriMime(TauriFileName(path)) == ThreeMfMime
  {
    TauriNameKeepsSuffix(path, ".3mf");
    ThreeMfNameGetsThreeMfMime(TauriFileName(path));
  }

  lemma ThreeMfNameLoadsAsThreeMf(name: string, bytes: seq<byte>)
    requires EndsWith(ToLower(name), ".3mf")
    ensures DetectFormat(name, TauriMime(name), bytes) == ThreeMf
  {
    ThreeMfNameGetsThreeMfMime(name);
    ThreeMfNameAndMimeDetectThreeMf(name, bytes);
  }

  lemma ThreeMfNameGetsThreeMfMime(name: string)
    requires EndsWith(ToLower(name), ".3mf")
    ensures TauriMime(name) == ThreeMfMime
  {
  }

  /** A ".3mf" name typed with the 3MF MIME type is parsed as 3MF. */
  lemma ThreeMfNameAndMimeDetectThreeMf(name: string, bytes: seq<byte>)
    requires EndsWith(ToLower(name), ".3mf")
    ensures DetectFormat(name, ThreeMfMime, bytes) == ThreeMf
  {
    ThreeMfMimeIsLower();
    ThreeMfMimeHints();
    assert !EndsWith(ToLower(name), ".stl");
  }

  /** A file read from a path ending in ".stl" (any case) is typed
      "model/stl" and parsed as STL. */
  lemma TauriStlPathLoadsAsStl(path: string, bytes: seq<byte>)
    requires EndsWith(ToLower(path), ".stl")
    ensures TauriMime(TauriFileName(path)) == StlMime
    ensures DetectFormat(TauriFileName(path), TauriMime(TauriFileName(path)), bytes) == Stl
  {
    TauriNameKeepsSuffix(path, ".stl");
  }

  /** A path ending in a separator is read under the name "model.stl" and
      parsed as STL. */
  lemma TauriDirectoryPathDefaultsToStl(path: string, bytes: seq<byte>)
    requires |path| > 0 && path[|path| - 1] in {'/', '\\'}
    ensures TauriFileName(path) == DefaultTauriName
    ensures TauriMime(TauriFileName(path)) == StlMime
    ensures DetectFormat(TauriFileName(path), TauriMime(TauriFileName(path)), bytes) == Stl
  {
    assert ToLower(DefaultTauriName) == DefaultTauriName;
  }

  /** A four-character, separator-free suffix of the lowered path survives
      into the lowered Tauri file name. */
  lemma TauriNameKeepsSuffix(path: string, ext: string)
    requires |ext| == 4 && '/' !in ext && '\\' !in ext
    requires EndsWith(ToLower(path), ext)
    ensures EndsWith(ToLower(TauriFileName(path)), ext)
  {
    var last := AfterLast(path, {'/', '\\'});
    LoweredSuffixHasNoSeparator(path, ext);
    LastPieceKeepsTail(path);
    assert TauriFileName(path) == last;
    LoweredSuffixOfSuffix(path, last, ext);
  }

  lemma LoweredSuffixHasNoSeparator(path: string, ext: string)
    requires |ext| == 4 && '/' !in ext && '\\' !in ext
    requires EndsWith(ToLower(path), ext)
    ensures forall k :: |path| - 4 <= k < |path| ==> path[k] != '/' && path[k] != '\\'
  {
    var n := |path|;
    forall k | n - 4 <= k < n
      ensures path[k] != '/' && path[k] != '\\'
    {
      assert ToLower(path)[k] == ext[k - (n - 4)];
    }
  }

  lemma LastPieceKeepsTail(path: string)
    requires |path| >= 4
    requires forall k :: |path| - 4 <= k < |path| ==> path[k] != '/' && path[k] != '\\'
    ensures |AfterLast(path, {'/', '\\'})| >= 4
  {
  }

  lemma LoweredSuffixOfSuffix(path: string, last: string, ext: string)
    requires |last| >= 4 && |last| <= |path| && last == path[|path| - |last|..]
    requires EndsWith(ToLower(path), ext) && |ext| == 4
    ensures EndsWith(ToLower(last), ext)
  {
    var n := |path|;
    var tail := path[n - 4..];
    assert last[|last| - 4..] == tail;
    ToLowerSuffix(last, |last| - 4);
    ToLowerSuffix(path, n - 4);
  }
}
