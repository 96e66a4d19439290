/** The in-app debug logger (src/main.js, debugLogState and debugLog): a
    bounded buffer of formatted lines shown in a panel. The clock reading
    and the JSON text of the details are supplied by the caller. */
module DebugLog {
  import opened Options
  import opened Text

  /** `[<ts>] <message>` followed by ` | <json>` when there are details. */
  function FormatLine(ts: string, message: string, details: Option<string>): (line: string)
    ensures StartsWith(line, "[" + ts + "] " + message)
    ensures details.None? ==> line == "[" + ts + "] " + message
    ensures details.Some? ==> EndsWith(line, " | " + details.value)
    ensures details.Some? ==> |line| == |ts| + |message| + |details.value| + 6
  {
    var head := "[" + ts + "] " + message;
    var detailText := if details.None? then "" else " | " + details.value;
    assert (head + detailText)[..|head|] == head;
    head + detailText
  }

  /** One push: append, then drop the oldest line when over the bound. */
  function Pushed(lines: seq<string>, line: string, maxLines: nat): (r: seq<string>)
    ensures |lines| <= maxLines ==> |r| <= maxLines
    ensures |lines| < maxLines ==> r == lines + [line]
    ensures maxLines > 0 ==> |r| > 0 && r[|r| - 1] == line
    ensures r == lines + [line] || r == (lines + [line])[1..]
  {
    var l := lines + [line];
    if |l| > maxLines then l[1..] else l
  }

  /** The buffer after pushing every line of ls, in order, onto an empty
      one. */
  function PushAll(ls: seq<string>, maxLines: nat): seq<string>
  {
    if |ls| == 0 then [] else Pushed(PushAll(ls[..|ls| - 1], maxLines), ls[|ls| - 1], maxLines)
  }

  /** The buffer holds the last maxLines lines pushed, oldest first (all of
      them while fewer were pushed). */
  lemma {:induction false} PushAllKeepsLast(ls: seq<string>, maxLines: nat)
    requires maxLines > 0
    ensures |PushAll(ls, maxLines)| == if |ls| < maxLines then |ls| else maxLines
    ensures PushAll(ls, maxLines) == ls[|ls| - |PushAll(ls, maxLines)|..]
  {
    if |ls| > 0 {
      var init := ls[..|ls| - 1];
      PushAllKeepsLast(init, maxLines);
      var before := PushAll(init, maxLines);
      assert before + [ls[|ls| - 1]] == ls[|init| - |before|..];
    }
  }

  /** debugLogState: enabled, at most maxLines lines, and the panel body once
      it exists. */
  class Logger {
    var enabled: bool
    var hasBody: bool
    var lines: seq<string>
    var shown: string
    const maxLines: nat

    constructor ()
      ensures Valid()
      ensures enabled && !hasBody && lines == [] && shown == "" && maxLines == 200
    {
      enabled := true;
      hasBody := false;
      lines := [];
      shown := "";
      maxLines := 200;
    }

    predicate Valid()
      reads this
    {
      0 < maxLines && |lines| <= maxLines
    }

    /** initDebugPanel: the panel body now exists. */
    method AttachBody()
      modifies this
      ensures hasBody && enabled == old(enabled) && lines == old(lines) && shown == old(shown)
    {
      hasBody := true;
    }

    /** debugLog: nothing until the panel exists or when disabled; otherwise
        the formatted line is pushed and the panel shows the lines joined by
        newlines. */
    method Log(ts: string, message: string, details: Option<string>)
      requires Valid()
      modifies this
      ensures Valid()
      ensures enabled == old(enabled) && hasBody == old(hasBody)
      ensures !(enabled && hasBody) ==> lines == old(lines) && shown == old(shown)
      ensures enabled && hasBody ==>
                lines == Pushed(old(lines), FormatLine(ts, message, details), maxLines) &&
                shown == Join(lines, '\n')
    {
      if !enabled || !hasBody {
        return;
      }
      var line := FormatLine(ts, message, details);
      lines := lines + [line];
      if |lines| > maxLines {
        lines := lines[1..];
      }
      shown := Join(lines, '\n');
    }
  }
}
