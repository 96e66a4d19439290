/** Turning what a drag-and-drop delivers into a model to load
    (src/main.js): path normalisation of dropped text, the first supported
    path of a text payload, the desktop shell's drop payload, and the order
    in which handleDrop tries the parts of a DataTransfer. */
module DropPaths {
  import opened Options
  import opened Text
  import opened Formats

  /** decodeURIComponent, supplied by the caller; None stands for the
      URIError it throws on a malformed escape. */
  type Decoder = string -> Option<string>

  predicate IsQuote(c: char)
  {
    c == '\'' || c == '"'
  }

  /** `replace(/^['"]|['"]$/g, '')`: one leading quote and then one
      trailing quote, where present. */
  function StripQuotes(s: string): (r: string)
    ensures |s| - 2 <= |r| <= |s|
    ensures exists i, j :: 0 <= i <= 1 && |s| - 1 <= j <= |s| && i <= j && r == s[i..j] &&
                           (i == 1 <==> |s| > 0 && IsQuote(s[0])) &&
                           (j == |s| - 1 <==> |s| > i && IsQuote(s[|s| - 1]))
    ensures |s| == 0 || (!IsQuote(s[0]) && !IsQuote(s[|s| - 1])) ==> r == s
  {
    var t := if |s| > 0 && IsQuote(s[0]) then s[1..] else s;
    var r := if |t| > 0 && IsQuote(t[|t| - 1]) then t[..|t| - 1] else t;
    var i := |s| - |t|;
    assert r == s[i..i + |r|];
    r
  }

  /** At most one quote goes from each end. */
  lemma StripQuotesRemovesOnlyOnePerSide()
    ensures StripQuotes("''a.stl''") == "'a.stl'"
    ensures StripQuotes("\"C:/m.3mf\"") == "C:/m.3mf"
  {
  }

  /** `/^[A-Za-z]:/`: a Windows drive letter and colon. */
  predicate IsDrivePath(s: string)
  {
    |s| >= 2 && (('A' <= s[0] <= 'Z') || ('a' <= s[0] <= 'z')) && s[1] == ':'
  }

  /** The trimmed, unquoted form of a dropped string. */
  function Unquoted(pathLike: string): string
  {
    StripQuotes(Trim(pathLike))
  }

  const FileScheme := "file://"

  /** What follows "file://" and one optional further '/'. */
  function UriBody(path: string): (body: string)
    requires StartsWith(path, FileScheme)
    ensures body == path[7..] || (|path| >= 8 && path[7] == '/' && body == path[8..])
    ensures |path| >= 8 && path[7] == '/' ==> body == path[8..]
  {
    var rest := path[|FileScheme|..];
    if |rest| > 0 && rest[0] == '/' then rest[1..] else rest
  }

  /** normalizeDroppedPath: the empty string for empty input; a file URI
      decoded and made absolute unless it names a drive; any other text
      trimmed and unquoted. None when decodeURIComponent throws. */
  function NormalizeDroppedPath(pathLike: string, decode: Decoder): (r: Option<string>)
    ensures pathLike == "" ==> r == Some("")
    ensures pathLike != "" && !StartsWith(Unquoted(pathLike), FileScheme) ==> r == Some(Unquoted(pathLike))
    ensures r.None? ==> StartsWith(Unquoted(pathLike), FileScheme) &&
                        decode(UriBody(Unquoted(pathLike))).None?
  {
    if pathLike == "" then Some("")
    else
      var path := Unquoted(pathLike);
      if path == "" then Some("")
      else if StartsWith(path, FileScheme) then
        match decode(UriBody(path))
        case None => None
        case Some(d) =>
          if IsDrivePath(d) then Some(d)
          else if |d| > 0 && d[0] == '/' then Some(d)
          else Some("/" + d)
      else Some(path)
  }

  /** A decoded file URI becomes a drive path as it is, or otherwise a path
      with exactly one added leading '/' when it had none. */
  lemma {:induction false} FileUriBecomesAbsolute(pathLike: string, decode: Decoder)
    requires pathLike != "" && StartsWith(Unquoted(pathLike), FileScheme)
    requires decode(UriBody(Unquoted(pathLike))).Some?
    ensures var d := decode(UriBody(Unquoted(pathLike))).value;
            var r := NormalizeDroppedPath(pathLike, decode);
            r.Some? &&
            (IsDrivePath(d) ==> r.value == d) &&
            (!IsDrivePath(d) && StartsWith(d, "/") ==> r.value == d) &&
            (!IsDrivePath(d) && !StartsWith(d, "/") ==> r.value == "/" + d) &&
            (IsDrivePath(r.value) || StartsWith(r.value, "/"))
  {
    var path := Unquoted(pathLike);
    assert path != "";
    var d := decode(UriBody(path)).value;
    if !IsDrivePath(d) && !StartsWith(d, "/") {
      assert StartsWith("/" + d, "/");
    }
  }

  /** `line && !line.startsWith('#')`. */
  predicate IsCandidate(line: string)
  {
    line != "" && line[0] != '#'
  }

  /** Every line, trimmed. */
  function TrimLines(lines: seq<string>): (ts: seq<string>)
    ensures |ts| == |lines| && forall i :: 0 <= i < |lines| ==> ts[i] == Trim(lines[i])
  {
    seq(|lines|, i requires 0 <= i < |lines| => Trim(lines[i]))
  }

  /** The candidate lines, in order (CandidatesAppend). */
  function Candidates(ts: seq<string>): (cs: seq<string>)
    ensures |cs| <= |ts|
    ensures forall x :: x in cs <==> x in ts && IsCandidate(x)
  {
    if |ts| == 0 then []
    else
      var rest := Candidates(ts[1..]);
      assert forall x :: x in ts <==> x == ts[0] || x in ts[1..];
      if IsCandidate(ts[0]) then [ts[0]] + rest else rest
  }

  /** One step of the filter. */
  lemma CandidatesUnfold(ts: seq<string>)
    requires |ts| > 0
    ensures Candidates(ts) == (if IsCandidate(ts[0]) then [ts[0]] else []) + Candidates(ts[1..])
  {
  }

  /** The filter keeps the order of the lines: the candidates of a + b are
      those of a followed by those of b. With the contract of Candidates
      (a single line stays exactly when it is a candidate) this fixes the
      result for every input. */
  lemma {:induction false} CandidatesAppend(a: seq<string>, b: seq<string>)
    ensures Candidates(a + b) == Candidates(a) + Candidates(b)
    decreases |a|
  {
    if |a| == 0 {
      assert a + b == b;
    } else {
      var ab := a + b;
      assert ab[0] == a[0] && ab[1..] == a[1..] + b;
      CandidatesAppend(a[1..], b);
      CandidatesUnfold(a);
      CandidatesUnfold(ab);
    }
  }

  /** A text without a newline is one piece. */
  lemma {:induction false} SplitWithoutSeparator(a: string, sep: char)
    requires sep !in a
    ensures Split(a, sep) == [a]
    decreases |a|
  {
    if |a| > 0 {
      SplitWithoutSeparator(a[1..], sep);
      assert [a[0]] + a[1..] == a;
    }
  }

  /** The trimmed lines of a text that are neither empty nor comments. */
  function TextCandidates(rawText: string): seq<string>
  {
    Candidates(TrimLines(Split(rawText, '\n')))
  }

  /** Trimming lines one by one. */
  lemma TrimLinesCons(x: string, xs: seq<string>)
    ensures TrimLines([x] + xs) == [Trim(x)] + TrimLines(xs)
  {
    var l, r := TrimLines([x] + xs), [Trim(x)] + TrimLines(xs);
    forall i | 0 <= i < |l|
      ensures l[i] == r[i]
    {
      if i > 0 {
        assert ([x] + xs)[i] == xs[i - 1];
      }
    }
  }

  /** The candidates of a text are those of its first line followed by
      those of the rest, so they come in line order. */
  lemma TextCandidatesByLine(line: string, rest: string)
    requires '\n' !in line
    ensures TextCandidates(line + "\n" + rest) == TextCandidates(line) + TextCandidates(rest)
  {
    var pieces := Split(rest, '\n');
    SplitAtFirstSeparator(line, rest, '\n');
    assert Split(line + "\n" + rest, '\n') == [line] + pieces;
    SplitWithoutSeparator(line, '\n');
    TrimLinesCons(line, pieces);
    TrimLinesCons(line, []);
    assert [line] + [] == [line];
    assert [Trim(line)] + [] == [Trim(line)];
    CandidatesAppend([Trim(line)], TrimLines(pieces));
  }

  /** Each candidate normalised. */
  function NormalizeAll(cs: seq<string>, decode: Decoder): (ns: seq<Option<string>>)
    ensures |ns| == |cs| && forall i :: 0 <= i < |cs| ==> ns[i] == NormalizeDroppedPath(cs[i], decode)
  {
    seq(|cs|, i requires 0 <= i < |cs| => NormalizeDroppedPath(cs[i], decode))
  }

  /** A normalisation that succeeded with an unsupported name. */
  predicate Rejected(n: Option<string>)
  {
    n.Some? && !IsSupportedModelName(n.value)
  }

  /** The `for ... of` over the normalised candidates: the first supported
      one, or "" when there is none; None when a normalisation throws
      first. */
  function FirstSupportedNormalized(ns: seq<Option<string>>): (r: Option<string>)
    ensures r.Some? && r.value != "" ==>
              IsSupportedModelName(r.value) &&
              exists k ::
                0 <= k < |ns| && ns[k] == r && forall j :: 0 <= j < k ==> Rejected(ns[j])
    ensures r == Some("") <==> forall j :: 0 <= j < |ns| ==> Rejected(ns[j])
    ensures r.None? ==>
              exists k ::
                0 <= k < |ns| && ns[k].None? && forall j :: 0 <= j < k ==> Rejected(ns[j])
  {
    if |ns| == 0 then Some("")
    else if ns[0].None? then None
    else if IsSupportedModelName(ns[0].value) then ns[0]
    else
      var r := FirstSupportedNormalized(ns[1..]);
      assert forall j :: 1 <= j < |ns| ==> ns[j] == ns[1..][j - 1];
      r
  }

  lemma EmptyNameUnsupported()
    ensures !IsSupportedModelName("")
  {
  }

  /** extractSupportedPathFromText: the first supported normalised
      candidate line, or "" (ExtractFindsFirstSupported). */
  function ExtractSupportedPathFromText(rawText: string, decode: Decoder): (r: Option<string>)
    ensures rawText == "" ==> r == Some("")
    ensures r.Some? && r.value != "" ==> IsSupportedModelName(r.value)
  {
    if rawText == "" then Some("")
    else FirstSupportedNormalized(NormalizeAll(TextCandidates(rawText), decode))
  }

  /** Over the candidate lines in order (ns[j] is the normalised j-th
      candidate, NormalizeAll), the result is the first supported one; ""
      exactly when every candidate normalises to an unsupported name; None
      when decodeURIComponent throws on a candidate before any supported
      one. */
  lemma ExtractFindsFirstSupported(rawText: string, decode: Decoder)
    ensures var r := ExtractSupportedPathFromText(rawText, decode);
            var ns := NormalizeAll(TextCandidates(rawText), decode);
            (r == Some("") <==> forall j :: 0 <= j < |ns| ==> Rejected(ns[j])) &&
            (r.Some? && r.value != "" ==>
               exists k :: 0 <= k < |ns| && ns[k] == r && forall j :: 0 <= j < k ==> Rejected(ns[j])) &&
            (r.None? ==>
               exists k :: 0 <= k < |ns| && ns[k].None? && forall j :: 0 <= j < k ==> Rejected(ns[j]))
  {
    if rawText == "" {
      assert TrimLines(Split(rawText, '\n')) == [Trim("")];
      assert Trim("") == "";
      assert TextCandidates(rawText) == [];
    }
  }

  lemma {:induction false} AllRejected(ns: seq<Option<string>>)
    requires forall j :: 0 <= j < |ns| ==> Rejected(ns[j])
    ensures FirstSupportedNormalized(ns) == Some("")
    decreases |ns|
  {
    if |ns| > 0 {
      assert forall j :: 0 <= j < |ns| - 1 ==> ns[1..][j] == ns[j + 1];
      AllRejected(ns[1..]);
    }
  }

  /** A text whose first candidate line is a supported plain path yields
      that line, whatever follows it. */
  lemma FirstSupportedLineWins(line: string, rest: string, decode: Decoder)
    requires IsCandidate(Trim(line)) && '\n' !in line
    requires !StartsWith(StripQuotes(Trim(line)), FileScheme)
    requires IsSupportedModelName(StripQuotes(Trim(line)))
    ensures ExtractSupportedPathFromText(line + "\n" + rest, decode) == Some(StripQuotes(Trim(line)))
  {
    var cs := TextCandidates(line + "\n" + rest);
    FirstCandidateLine(line, rest);
    TrimIdempotent(line);
    assert NormalizeAll(cs, decode)[0] == Some(StripQuotes(Trim(line)));
  }

  /** The first line of a text, trimmed, is its first candidate when it is
      one. */
  lemma FirstCandidateLine(line: string, rest: string)
    requires IsCandidate(Trim(line)) && '\n' !in line
    ensures var cs := TextCandidates(line + "\n" + rest);
            |cs| > 0 && cs[0] == Trim(line)
  {
    SplitAtFirstSeparator(line, rest, '\n');
    var ts := TrimLines(Split(line + "\n" + rest, '\n'));
    assert ts == [Trim(line)] + ts[1..];
  }

  /** Splitting at a first separator gives the text before it as the first
      piece. */
  lemma {:induction false} SplitAtFirstSeparator(a: string, b: string, sep: char)
    requires sep !in a
    ensures Split(a + [sep] + b, sep) == [a] + Split(b, sep)
    decreases |a|
  {
    if |a| == 0 {
      assert a + [sep] + b == [sep] + b;
      assert ([sep] + b)[1..] == b;
    } else {
      SplitAtFirstSeparator(a[1..], b, sep);
      assert (a + [sep] + b)[1..] == a[1..] + [sep] + b;
      assert [a[0]] + a[1..] == a;
    }
  }

  /** The payload of a desktop-shell drop event, as JavaScript sees it:
      falsy, a string, an array (each element already converted with
      String), an object with optional `paths` array and `path` string, or
      anything else. */
  datatype Payload =
    | Falsy
    | Text(s: string)
    | List(items: seq<string>)
    | Record(paths: Option<seq<string>>, path: Option<string>)
    | Other

  /** extractPathsFromPayload. */
  function ExtractPathsFromPayload(p: Payload): (paths: seq<string>)
    ensures p.Falsy? || p.Other? || p == Text("") ==> paths == []
    ensures p.Text? && p.s != "" ==> paths == [p.s]
    ensures p.List? ==> paths == p.items
    ensures p.Record? && p.paths.Some? ==> paths == p.paths.value
    ensures p.Record? && p.paths.None? ==> paths == (if p.path.Some? then [p.path.value] else [])
  {
    match p
    case Falsy => []
    case Text(s) => if s == "" then [] else [s]
    case List(items) => items
    case Record(ps, path) =>
      if ps.Some? then ps.value else if path.Some? then [path.value] else []
    case Other => []
  }

  const DragDropEvent := "tauri://drag-drop"
  const FileDropEvent := "tauri://file-drop"

  /** The two of the listened-to events that load a file. */
  predicate IsDropEvent(eventName: string)
  {
    eventName == DragDropEvent || eventName == FileDropEvent
  }

  /** The desktop shell's drop and file-drop events load the first
      supported path of their payload; the enter, over and leave events
      load nothing. */
  function NativeDropPath(eventName: string, p: Payload): (r: Option<string>)
    ensures r.Some? ==> IsDropEvent(eventName) && IsSupportedModelName(r.value) &&
                        r == FirstSupportedName(ExtractPathsFromPayload(p))
    ensures (IsDropEvent(eventName) && exists x :: x in ExtractPathsFromPayload(p) && IsSupportedModelName(x))
            ==> r.Some?
  {
    if !IsDropEvent(eventName) then None
    else FirstSupportedName(ExtractPathsFromPayload(p))
  }

  /** `paths.find(isSupportedModelName)`. */
  function FirstSupportedName(paths: seq<string>): (r: Option<string>)
    ensures r.Some? ==> r.value in paths && IsSupportedModelName(r.value) &&
                        exists k :: 0 <= k < |paths| && paths[k] == r.value &&
                                    forall j :: 0 <= j < k ==> !IsSupportedModelName(paths[j])
    ensures r.None? ==> forall x :: x in paths ==> !IsSupportedModelName(x)
  {
    if |paths| == 0 then None
    else if IsSupportedModelName(paths[0]) then Some(paths[0])
    else
      var r := FirstSupportedName(paths[1..]);
      assert forall j :: 1 <= j < |paths| ==> paths[j] == paths[1..][j - 1];
      r
  }

  /** A dropped File: its name and, in desktop web views, its path ("" when
      absent). */
  datatype DroppedFile = DroppedFile(name: string, path: string)

  /** A DataTransferItem: a file item (whose getAsFile may still yield
      nothing) or a string item with the text getAsString delivers ("" when
      it fails). */
  datatype Item = FileItem(file: Option<DroppedFile>) | StringItem(text: string)

  /** The parts of a DataTransfer the drop handler reads. */
  datatype DataTransfer = DataTransfer(files: seq<DroppedFile>, items: seq<Item>,
                                       uriList: string, plainText: string)

  /** `file.name || file.path || ''`. */
  function FileCandidate(f: DroppedFile): string
  {
    if f.name != "" then f.name else f.path
  }

  /** The first file whose candidate name is supported. */
  function FirstSupportedFile(files: seq<DroppedFile>): (r: Option<DroppedFile>)
    ensures r.Some? ==>
              exists k :: 0 <= k < |files| && files[k] == r.value &&
                          IsSupportedModelName(FileCandidate(files[k])) &&
                          forall j :: 0 <= j < k ==> !IsSupportedModelName(FileCandidate(files[j]))
    ensures r.None? ==> forall k :: 0 <= k < |files| ==> !IsSupportedModelName(FileCandidate(files[k]))
  {
    if |files| == 0 then None
    else if IsSupportedModelName(FileCandidate(files[0])) then Some(files[0])
    else
      var r := FirstSupportedFile(files[1..]);
      assert forall j :: 1 <= j < |files| ==> files[j] == files[1..][j - 1];
      r
  }

  /** `items.map(item => item.getAsFile?.()).filter(Boolean)`. */
  function ItemFiles(items: seq<Item>): (fs: seq<DroppedFile>)
    ensures |fs| <= |items|
    ensures forall f :: f in fs <==> FileItem(Some(f)) in items
  {
    if |items| == 0 then []
    else
      var rest := ItemFiles(items[1..]);
      assert forall it :: it in items <==> it == items[0] || it in items[1..];
      match items[0]
      case FileItem(Some(f)) => [f] + rest
      case _ => rest
  }

  /** The texts of the string items, in order. */
  function StringItemTexts(items: seq<Item>): (ts: seq<string>)
    ensures |ts| <= |items|
    ensures forall t :: t in ts <==> StringItem(t) in items
  {
    if |items| == 0 then []
    else
      var rest := StringItemTexts(items[1..]);
      assert forall it :: it in items <==> it == items[0] || it in items[1..];
      match items[0]
      case StringItem(t) => [t] + rest
      case _ => rest
  }

  /** Both item filters keep the order of the items: those of a + b are
      those of a followed by those of b; with their contracts (one item
      gives at most one element, and only the kind it is filtered for)
      this fixes both results for every input. */
  lemma {:induction false} ItemFilesAppend(a: seq<Item>, b: seq<Item>)
    ensures ItemFiles(a + b) == ItemFiles(a) + ItemFiles(b)
    decreases |a|
  {
    if |a| == 0 {
      assert a + b == b;
    } else {
      var ab := a + b;
      assert ab[0] == a[0] && ab[1..] == a[1..] + b;
      ItemFilesAppend(a[1..], b);
      ItemFilesStep(a);
      ItemFilesStep(ab);
    }
  }

  /** One step of the file filter. */
  lemma ItemFilesStep(items: seq<Item>)
    requires |items| > 0
    ensures ItemFiles(items) ==
            (if items[0].FileItem? && items[0].file.Some? then [items[0].file.value] else []) + ItemFiles(items[1..])
  {
  }

  lemma {:induction false} StringItemTextsAppend(a: seq<Item>, b: seq<Item>)
    ensures StringItemTexts(a + b) == StringItemTexts(a) + StringItemTexts(b)
    decreases |a|
  {
    if |a| == 0 {
      assert a + b == b;
    } else {
      var ab := a + b;
      assert ab[0] == a[0] && ab[1..] == a[1..] + b;
      StringItemTextsAppend(a[1..], b);
      StringItemTextsStep(a);
      StringItemTextsStep(ab);
    }
  }

  /** pickSupportedFileFromDataTransfer: a supported direct file first,
      then a supported file from the items. */
  function PickSupportedFile(dt: Option<DataTransfer>): (r: Option<DroppedFile>)
    ensures r.Some? ==> IsSupportedModelName(FileCandidate(r.value))
    ensures dt.Some? && FirstSupportedFile(dt.value.files).Some? ==>
              r == FirstSupportedFile(dt.value.files)
    ensures dt.Some? && FirstSupportedFile(dt.value.files).None? ==>
              r == FirstSupportedFile(ItemFiles(dt.value.items))
    ensures dt.None? ==> r.None?
  {
    match dt
    case None => None
    case Some(d) =>
      var direct := FirstSupportedFile(d.files);
      if direct.Some? then direct else FirstSupportedFile(ItemFiles(d.items))
  }

  /** The first supported path among texts, trying each in order; "" when
      there is none. */
  function FirstPathInTexts(texts: seq<string>, decode: Decoder): (r: Option<string>)
    ensures r.Some? && r.value != "" ==> IsSupportedModelName(r.value)
  {
    if |texts| == 0 then Some("")
    else
      match ExtractSupportedPathFromText(texts[0], decode)
      case None => None
      case Some(p) => if p != "" then Some(p) else FirstPathInTexts(texts[1..], decode)
  }

  /** One step of the scan over the texts. */
  lemma FirstPathInTextsStep(t: string, ts: seq<string>, decode: Decoder)
    ensures FirstPathInTexts([t] + ts, decode) ==
            var e := ExtractSupportedPathFromText(t, decode);
            if e != Some("") then e else FirstPathInTexts(ts, decode)
  {
    assert ([t] + ts)[0] == t && ([t] + ts)[1..] == ts;
  }

  /** What extractSupportedPathFromText gives for each text
      (TextPathsAt). */
  function TextPaths(texts: seq<string>, decode: Decoder): (rs: seq<Option<string>>)
    ensures |rs| == |texts|
  {
    if |texts| == 0 then [] else [ExtractSupportedPathFromText(texts[0], decode)] + TextPaths(texts[1..], decode)
  }

  lemma {:induction false} TextPathsAt(texts: seq<string>, decode: Decoder, i: nat)
    requires i < |texts|
    ensures TextPaths(texts, decode)[i] == ExtractSupportedPathFromText(texts[i], decode)
    decreases i
  {
    if i > 0 {
      TextPathsAt(texts[1..], decode, i - 1);
    }
  }

  /** The first entry other than Some(""), or Some("") when there is
      none. */
  function FirstFound(rs: seq<Option<string>>): (r: Option<string>)
    ensures r == Some("") <==> forall j :: 0 <= j < |rs| ==> rs[j] == Some("")
    ensures r != Some("") ==>
              exists k :: 0 <= k < |rs| && rs[k] == r && forall j :: 0 <= j < k ==> rs[j] == Some("")
  {
    if |rs| == 0 then Some("")
    else if rs[0] != Some("") then rs[0]
    else
      var r := FirstFound(rs[1..]);
      assert forall j :: 1 <= j < |rs| ==> rs[j] == rs[1..][j - 1];
      r
  }

  /** An entry other than Some("") with only Some("") before it is the
      one found. */
  lemma {:induction false} FirstFoundAt(rs: seq<Option<string>>, k: nat)
    requires k < |rs| && rs[k] != Some("")
    requires forall j :: 0 <= j < k ==> rs[j] == Some("")
    ensures FirstFound(rs) == rs[k]
    decreases k
  {
    if k > 0 {
      assert forall j :: 0 <= j < k - 1 ==> rs[1..][j] == rs[j + 1];
      FirstFoundAt(rs[1..], k - 1);
    }
  }

  /** The texts are tried in order: the result is what the first text not
      giving "" gives (a supported path or a decode failure), and "" when
      every text gives "" (FirstFound, TextPathsAt). */
  lemma {:induction false} FirstPathInTextsFindsFirst(texts: seq<string>, decode: Decoder)
    ensures FirstPathInTexts(texts, decode) == FirstFound(TextPaths(texts, decode))
    decreases |texts|
  {
    if |texts| > 0 {
      var tail := texts[1..];
      FirstPathInTextsFindsFirst(tail, decode);
      var rs := TextPaths(texts, decode);
      assert rs[0] == ExtractSupportedPathFromText(texts[0], decode) && rs[1..] == TextPaths(tail, decode);
    }
  }

  /** getDroppedPathFromDataTransfer: the uri-list's path when it has one
      (or its decode failure), otherwise the plain text's, otherwise the
      first the string items give, in item order (StringItemsFindFirst). */
  function GetDroppedPath(dt: Option<DataTransfer>, decode: Decoder): (r: Option<string>)
    ensures dt.None? ==> r == Some("")
    ensures dt.Some? ==>
              var u := ExtractSupportedPathFromText(dt.value.uriList, decode);
              var t := ExtractSupportedPathFromText(dt.value.plainText, decode);
              (u != Some("") ==> r == u) &&
              (u == Some("") && t != Some("") ==> r == t) &&
              (u == Some("") && t == Some("") ==> r == FirstPathInTexts(StringItemTexts(dt.value.items), decode))
  {
    match dt
    case None => Some("")
    case Some(d) =>
      var items := StringItemTexts(d.items);
      var texts := [d.uriList, d.plainText] + items;
      assert texts == [d.uriList] + ([d.plainText] + items);
      FirstPathInTextsStep(d.uriList, [d.plainText] + items, decode);
      FirstPathInTextsStep(d.plainText, items, decode);
      FirstPathInTexts(texts, decode)
  }

  /** What each item contributes to the string-item scan: what
      extractSupportedPathFromText gives for a string item's text, and ""
      for a file item, which the scan skips. */
  function ItemPaths(items: seq<Item>, decode: Decoder): (ps: seq<Option<string>>)
    ensures |ps| == |items|
  {
    if |items| == 0 then []
    else
      [if items[0].StringItem? then ExtractSupportedPathFromText(items[0].text, decode) else Some("")] +
      ItemPaths(items[1..], decode)
  }

  lemma {:induction false} ItemPathsAt(items: seq<Item>, decode: Decoder, i: nat)
    requires i < |items|
    ensures ItemPaths(items, decode)[i] ==
            if items[i].StringItem? then ExtractSupportedPathFromText(items[i].text, decode) else Some("")
    decreases i
  {
    if i > 0 {
      ItemPathsAt(items[1..], decode, i - 1);
    }
  }

  /** The string items are tried in item order: the result is what the
      first item not giving "" gives, and "" when every item gives ""
      (FirstFound, ItemPathsAt). */
  lemma {:induction false} StringItemsFindFirst(items: seq<Item>, decode: Decoder)
    ensures FirstPathInTexts(StringItemTexts(items), decode) == FirstFound(ItemPaths(items, decode))
    decreases |items|
  {
    if |items| > 0 {
      var tail := items[1..];
      StringItemsFindFirst(tail, decode);
      var rest := StringItemTexts(tail);
      StringItemTextsStep(items);
      if items[0].StringItem? {
        FirstPathInTextsStep(items[0].text, rest, decode);
      } else {
        assert StringItemTexts(items) == rest;
      }
      var ps := ItemPaths(items, decode);
      assert ps[1..] == ItemPaths(tail, decode);
    }
  }

  /** One step of the string-item filter. */
  lemma StringItemTextsStep(items: seq<Item>)
    requires |items| > 0
    ensures StringItemTexts(items) == (if items[0].StringItem? then [items[0].text] else []) + StringItemTexts(items[1..])
  {
  }

  /** What handleDrop ends in. */
  datatype DropOutcome =
    | LoadFile(file: DroppedFile)       // loadFromFile(file)
    | LoadTauriPath(path: string)       // loadFileFromTauriPath(path)
    | Unsupported                       // the "Unsupported dropped item" warning
    | Failed                            // decodeURIComponent threw; nothing loads

  /** handleDrop. */
  function HandleDrop(dt: Option<DataTransfer>, decode: Decoder): (o: DropOutcome)
    ensures o.LoadTauriPath? ==> IsSupportedModelName(o.path)
  {
    match PickSupportedFile(dt)
    case Some(f) =>
      if !IsSupportedModelName(f.name) && IsSupportedModelName(f.path) then LoadTauriPath(f.path)
      else LoadFile(f)
    case None =>
      match GetDroppedPath(dt, decode)
      case None => Failed
      case Some(p) => if IsSupportedModelName(p) then LoadTauriPath(p) else Unsupported
  }

  /** A supported direct file wins over everything else in the transfer. */
  lemma {:induction false} DirectFileFirst(dt: DataTransfer, decode: Decoder, k: nat)
    requires k < |dt.files| && IsSupportedModelName(FileCandidate(dt.files[k]))
    requires forall j :: 0 <= j < k ==> !IsSupportedModelName(FileCandidate(dt.files[j]))
    ensures HandleDrop(Some(dt), decode) in {LoadFile(dt.files[k]), LoadTauriPath(dt.files[k].path)}
  {
    FirstSupportedFileIsFirst(dt.files, k);
  }

  lemma {:induction false} FirstSupportedFileIsFirst(files: seq<DroppedFile>, k: nat)
    requires k < |files| && IsSupportedModelName(FileCandidate(files[k]))
    requires forall j :: 0 <= j < k ==> !IsSupportedModelName(FileCandidate(files[j]))
    ensures FirstSupportedFile(files) == Some(files[k])
    decreases k
  {
    if k > 0 {
      FirstSupportedFileIsFirst(files[1..], k - 1);
    }
  }

  /** A chosen file is read through the desktop shell exactly when it has no
      name: a file with a name is only chosen for a supported name, and is
      then loaded directly. */
  lemma PickedFileGoesThroughShellOnlyWithoutName(dt: Option<DataTransfer>, decode: Decoder)
    requires PickSupportedFile(dt).Some?
    ensures var f := PickSupportedFile(dt).value;
            HandleDrop(dt, decode) == (if f.name == "" then LoadTauriPath(f.path) else LoadFile(f))
  {
    var f := PickSupportedFile(dt).value;
    if f.name == "" {
      EmptyNameUnsupported();
    }
  }

  /** With no supported file anywhere, a supported uri-list path is loaded
      through the shell before the plain text and the string items are
      looked at. */
  lemma UriListBeforePlainText(dt: DataTransfer, decode: Decoder, p: string)
    requires PickSupportedFile(Some(dt)).None?
    requires ExtractSupportedPathFromText(dt.uriList, decode) == Some(p) && p != ""
    ensures HandleDrop(Some(dt), decode) == LoadTauriPath(p)
  {
  }

  /** ... and when the uri-list yields nothing, a supported plain-text path
      is next. */
  lemma PlainTextBeforeStringItems(dt: DataTransfer, decode: Decoder, p: string)
    requires PickSupportedFile(Some(dt)).None?
    requires ExtractSupportedPathFromText(dt.uriList, decode) == Some("")
    requires ExtractSupportedPathFromText(dt.plainText, decode) == Some(p) && p != ""
    ensures HandleDrop(Some(dt), decode) == LoadTauriPath(p)
  {
    var texts := [dt.uriList, dt.plainText] + StringItemTexts(dt.items);
    assert texts[1..][0] == dt.plainText;
    assert FirstPathInTexts(texts[1..], decode) == Some(p);
    assert FirstPathInTexts(texts, decode) == Some(p);
    assert GetDroppedPath(Some(dt), decode) == Some(p);
  }

  /** ... and when neither gives one, the first string item with a
      supported path is loaded, whatever the later items hold. */
  lemma StringItemAfterPlainText(dt: DataTransfer, decode: Decoder, k: nat, p: string)
    requires PickSupportedFile(Some(dt)).None?
    requires ExtractSupportedPathFromText(dt.uriList, decode) == Some("")
    requires ExtractSupportedPathFromText(dt.plainText, decode) == Some("")
    requires k < |dt.items| && dt.items[k].StringItem?
    requires ExtractSupportedPathFromText(dt.items[k].text, decode) == Some(p) && p != ""
    requires forall j :: 0 <= j < k && dt.items[j].StringItem? ==>
               ExtractSupportedPathFromText(dt.items[j].text, decode) == Some("")
    ensures HandleDrop(Some(dt), decode) == LoadTauriPath(p)
  {
    var ps := ItemPaths(dt.items, decode);
    forall j | 0 <= j < k
      ensures ps[j] == Some("")
    {
      ItemPathsAt(dt.items, decode, j);
    }
    ItemPathsAt(dt.items, decode, k);
    FirstFoundAt(ps, k);
    StringItemsFindFirst(dt.items, decode);
  }

  /** With no file and no usable text at all, the drop is reported as
      unsupported. */
  lemma NothingUsableIsUnsupported(dt: DataTransfer, decode: Decoder)
    requires PickSupportedFile(Some(dt)).None?
    requires ExtractSupportedPathFromText(dt.uriList, decode) == Some("")
    requires ExtractSupportedPathFromText(dt.plainText, decode) == Some("")
    requires forall t :: t in StringItemTexts(dt.items) ==> ExtractSupportedPathFromText(t, decode) == Some("")
    ensures HandleDrop(Some(dt), decode) == Unsupported
  {
    NoPathInTransfer(dt, decode);
    EmptyNameUnsupported();
  }

  lemma NoPathInTransfer(dt: DataTransfer, decode: Decoder)
    requires ExtractSupportedPathFromText(dt.uriList, decode) == Some("")
    requires ExtractSupportedPathFromText(dt.plainText, decode) == Some("")
    requires forall t :: t in StringItemTexts(dt.items) ==> ExtractSupportedPathFromText(t, decode) == Some("")
    ensures GetDroppedPath(Some(dt), decode) == Some("")
  {
    var texts := [dt.uriList, dt.plainText] + StringItemTexts(dt.items);
    assert forall t :: t in texts ==> t == dt.uriList || t == dt.plainText || t in StringItemTexts(dt.items);
    NoPathInTexts(texts, decode);
  }

  lemma {:induction false} NoPathInTexts(texts: seq<string>, decode: Decoder)
    requires forall t :: t in texts ==> ExtractSupportedPathFromText(t, decode) == Some("")
    ensures FirstPathInTexts(texts, decode) == Some("")
    decreases |texts|
  {
    if |texts| > 0 {
      assert texts[0] in texts;
      assert forall t :: t in texts[1..] ==> t in texts;
      NoPathInTexts(texts[1..], decode);
    }
  }
}
