/**
 * The command dispatcher `HumanLikeAI.handle`: one line of text in, one
 * reply out, with the fact store changed only through `learn` and `update`.
 *
 * Parsing is a pure function from the line to a `Command`; `Handle` runs
 * the command against the store and formats the reply.
 */
module Dispatcher {
  import opened Text
  import opened Memory

  const LearnHint := "To teach me, say: learn <key>: <value>"
  const RecallHint := "To recall, say: recall <key>"
  const UpdateHint := "To update, say: update <key>: <value>"
  const NoFacts := "I don't know anything yet."
  const HelpText := "You can teach me with 'learn', ask me with 'recall', update with 'update', or list all with 'facts'."

  /** What a line of input asks for; the `...Usage` cases are the lines whose
      payload does not parse and are answered with a usage hint. */
  datatype Command =
    | LearnCmd(key: string, value: string)
    | LearnUsage
    | RecallCmd(key: string)
    | RecallUsage
    | UpdateCmd(key: string, value: string)
    | UpdateUsage
    | FactsCmd
    | HelpCmd

  /** The `<key>: <value>` payload of `learn` and `update`: everything after
      the first space, split at the first colon, both halves stripped. */
  function Payload(t: string): Option<(string, string)>
  {
    var afterSpace := SplitFirst(t, ' ');
    if afterSpace.None? then None
    else
      var atColon := SplitFirst(afterSpace.value.1, ':');
      if atColon.None? then None
      else Some((Strip(atColon.value.0), Strip(atColon.value.1)))
  }

  /** The branch `handle` takes: the keyword is matched case-insensitively as
      a prefix of the stripped line, in the order learn, recall, update; then
      the whole line against `facts`; anything else gets the help text. */
  function Parse(text: string): Command
  {
    var t := Strip(text);
    var lowered := Lower(t);
    if StartsWith(lowered, "learn") then
      var payload := Payload(t);
      if payload.None? then LearnUsage else LearnCmd(payload.value.0, payload.value.1)
    else if StartsWith(lowered, "recall") then
      var afterSpace := SplitFirst(t, ' ');
      if afterSpace.None? then RecallUsage else RecallCmd(Strip(afterSpace.value.1))
    else if StartsWith(lowered, "update") then
      var payload := Payload(t);
      if payload.None? then UpdateUsage else UpdateCmd(payload.value.0, payload.value.1)
    else if lowered == "facts" then FactsCmd
    else HelpCmd
  }

  /** The four keywords already differ in their first letter, so at most one
      branch of `Parse` can apply. */
  lemma KeywordInitials(lowered: string)
    ensures StartsWith(lowered, "learn") ==> lowered[0] == 'l'
    ensures StartsWith(lowered, "recall") ==> lowered[0] == 'r'
    ensures StartsWith(lowered, "update") ==> lowered[0] == 'u'
    ensures lowered == "facts" ==> lowered[0] == 'f'
  {
  }

  function LearnedReply(key: string, value: string): string
  {
    "I've learned that " + key + " is " + value + "."
  }

  function UpdatedReply(key: string, value: string): string
  {
    "I've updated " + key + " to " + value + "."
  }

  function UnknownReply(key: string): string
  {
    "I don't know " + key + " yet. Teach me first."
  }

  /** `f"{key}: {value}"`, the form of a `recall` reply and of a `facts` line. */
  function Line(key: string, value: string): string
  {
    key + ": " + value
  }

  /** `ks` lists every key of `m` exactly once, in some order. */
  ghost predicate Enumerates(ks: seq<string>, m: map<string, string>)
  {
    (forall k :: k in ks <==> k in m) &&
    (forall i, j :: 0 <= i < j < |ks| ==> ks[i] != ks[j])
  }

  /** One `key: value` line per key of `ks`, in the order of `ks`. */
  function Lines(ks: seq<string>, m: map<string, string>): (lines: seq<string>)
    requires forall k :: k in ks ==> k in m
    ensures |lines| == |ks|
    ensures forall i :: 0 <= i < |ks| ==> lines[i] == Line(ks[i], m[ks[i]])
  {
    if ks == [] then [] else Lines(ks[..|ks| - 1], m) + [Line(ks[|ks| - 1], m[ks[|ks| - 1]])]
  }

  /** `"\n".join(lines)`. */
  function JoinLines(lines: seq<string>): string
  {
    if lines == [] then []
    else if |lines| == 1 then lines[0]
    else lines[0] + "\n" + JoinLines(lines[1..])
  }

  /** A list without repetitions is as long as the set of its elements. */
  lemma {:induction false} DistinctCardinality(ks: seq<string>)
    requires forall i, j :: 0 <= i < j < |ks| ==> ks[i] != ks[j]
    ensures |set k | k in ks| == |ks|
  {
    if ks != [] {
      var last := ks[|ks| - 1];
      var init := ks[..|ks| - 1];
      DistinctCardinality(init);
      assert (set k | k in ks) == (set k | k in init) + {last};
      assert last !in init;
    }
  }

  /** The `facts` listing of a non-empty store: one line per fact, every fact
      present, and a non-empty reply. */
  lemma FactsListing(ks: seq<string>, m: map<string, string>)
    requires Enumerates(ks, m)
    ensures |Lines(ks, m)| == |m|
    ensures forall k :: k in m ==> Line(k, m[k]) in Lines(ks, m)
    ensures m != map[] ==> JoinLines(Lines(ks, m)) != []
  {
    DistinctCardinality(ks);
    assert (set k | k in ks) == m.Keys;
    forall k | k in m
      ensures Line(k, m[k]) in Lines(ks, m)
    {
      var i :| 0 <= i < |ks| && ks[i] == k;
      assert Lines(ks, m)[i] == Line(k, m[k]);
    }
    if m != map[] {
      var lines := Lines(ks, m);
      assert |lines[0]| >= 2;
      assert |JoinLines(lines)| >= |lines[0]|;
    }
  }

  /** The list comprehension over `facts.items()`: one line per fact, in the
      dictionary's iteration order, which the model leaves open. */
  method ListFacts(m: map<string, string>) returns (ks: seq<string>, lines: seq<string>)
    ensures Enumerates(ks, m)
    ensures lines == Lines(ks, m)
  {
    var rest := m.Keys;
    ks, lines := [], [];
    while rest != {}
      invariant rest <= m.Keys
      invariant forall k :: k in ks <==> k in m && k !in rest
      invariant forall i, j :: 0 <= i < j < |ks| ==> ks[i] != ks[j]
      invariant lines == Lines(ks, m)
      decreases |rest|
    {
      var k :| k in rest;
      assert (ks + [k])[..|ks|] == ks;
      ks := ks + [k];
      lines := lines + [Line(k, m[k])];
      rest := rest - {k};
    }
  }

  /** A parsed payload is stripped on both sides and its key holds no colon. */
  lemma PayloadFields(t: string)
    ensures Payload(t).Some? ==>
      IsTrimmed(Payload(t).value.0) && IsTrimmed(Payload(t).value.1) && ':' !in Payload(t).value.0
  {
    var s := SplitFirst(t, ' ');
    if s.Some? {
      var c := SplitFirst(s.value.1, ':');
      if c.Some? {
        StripKeepsAbsent(c.value.0, ':');
      }
    }
  }

  /** On a stripped line, whatever follows the first space is not blank. */
  lemma RestNotBlank(t: string)
    requires IsTrimmed(t) && SplitFirst(t, ' ').Some?
    ensures Strip(SplitFirst(t, ' ').value.1) != []
  {
    var rest := SplitFirst(t, ' ').value.1;
    assert rest != [] && rest[|rest| - 1] == t[|t| - 1];
    StripSlice(rest);
  }

  /** Whatever `learn` and `update` store is already stripped, and the key
      holds no colon; a `recall` key is stripped and never empty. */
  lemma ParsedFieldsTrimmed(text: string)
    ensures Parse(text).LearnCmd? || Parse(text).UpdateCmd? ==>
      IsTrimmed(Parse(text).key) && IsTrimmed(Parse(text).value) && ':' !in Parse(text).key
    ensures Parse(text).RecallCmd? ==> IsTrimmed(Parse(text).key) && Parse(text).key != []
  {
    var t := Strip(text);
    var lowered := Lower(t);
    KeywordInitials(lowered);
    PayloadFields(t);
    if StartsWith(lowered, "learn") {
      ParseLearnBranch(text);
    } else if StartsWith(lowered, "recall") {
      ParseRecallBranch(text);
      if SplitFirst(t, ' ').Some? {
        RestNotBlank(t);
      }
    } else if StartsWith(lowered, "update") {
      ParseUpdateBranch(text);
    } else {
      ParseOtherBranch(text);
    }
  }

  /** Without a colon after the first space there is no payload. */
  lemma NoColonNoPayload(t: string)
    requires ':' !in t
    ensures Payload(t).None?
  {
    var s := SplitFirst(t, ' ');
    if s.Some? {
      var rest := s.value.1;
      forall i | 0 <= i < |rest|
        ensures rest[i] != ':'
      {
        assert rest[i] == t[|s.value.0| + 1 + i];
      }
    }
  }

  /** Without a space a line never reaches `learn`, `recall` or `update`,
      and without a colon never `learn` or `update`: it gets the usage hint. */
  lemma MissingSeparator(text: string)
    ensures ' ' !in Strip(text) ==>
      !Parse(text).LearnCmd? && !Parse(text).RecallCmd? && !Parse(text).UpdateCmd?
    ensures ':' !in Strip(text) ==> !Parse(text).LearnCmd? && !Parse(text).UpdateCmd?
  {
    var t := Strip(text);
    var lowered := Lower(t);
    KeywordInitials(lowered);
    if ':' !in t {
      NoColonNoPayload(t);
    }
    if ' ' !in t {
      assert SplitFirst(t, ' ').None?;
      assert Payload(t).None?;
    }
    if StartsWith(lowered, "learn") {
      ParseLearnBranch(text);
    } else if StartsWith(lowered, "recall") {
      ParseRecallBranch(text);
    } else if StartsWith(lowered, "update") {
      ParseUpdateBranch(text);
    } else {
      ParseOtherBranch(text);
    }
  }

  /** A keyword spelled in any case lowers to the keyword, so it contains no
      whitespace and starts with a letter. */
  lemma KeywordShape(keyword: string, lowered: string)
    requires Lower(keyword) == lowered && lowered != []
    requires forall i :: 0 <= i < |lowered| ==> 'a' <= lowered[i] <= 'z'
    ensures ' ' !in keyword && !IsSpace(keyword[0])
  {
    forall i | 0 <= i < |keyword|
      ensures keyword[i] != ' ' && !IsSpace(keyword[i])
    {
      assert LowerChar(keyword[i]) == lowered[i];
    }
  }

  /** What follows the keyword in `<keyword> <key>: <value>` once stripped. */
  function FormRest(key: string, value: string): string
  {
    " " + key + ":" + (if value == [] then "" else " " + value)
  }

  /** Stripping `<keyword> <key>: <value>` only drops the space of an empty value. */
  lemma StripOfForm(keyword: string, key: string, value: string)
    requires keyword != [] && !IsSpace(keyword[0]) && IsTrimmed(value)
    ensures Strip(keyword + " " + key + ": " + value) == keyword + FormRest(key, value)
  {
    var t := keyword + FormRest(key, value);
    if value == [] {
      assert keyword + " " + key + ": " + value == t + " ";
      StripTrailingSpace(t, ' ');
    } else {
      assert keyword + " " + key + ": " + value == t;
    }
    assert IsTrimmed(t);
    StripTrimmed(t);
  }

  /** The payload after a keyword without spaces is the stripped key and value. */
  lemma PayloadOfForm(keyword: string, key: string, value: string)
    requires ' ' !in keyword
    requires IsTrimmed(key) && IsTrimmed(value) && ':' !in key
    ensures Payload(keyword + FormRest(key, value)) == Some((key, value))
  {
    var tail := if value == [] then "" else " " + value;
    assert keyword + FormRest(key, value) == keyword + [' '] + (key + [':'] + tail);
    SplitFirstAt(keyword, ' ', key + [':'] + tail);
    SplitFirstAt(key, ':', tail);
    StripTrimmed(key);
    if value != [] {
      StripLeadingSpace(' ', value);
      StripTrimmed(value);
    }
  }

  /** A line that begins with the keyword, lowered, begins with the lowered keyword. */
  lemma LowerPrefix(line: string, keyword: string)
    requires |keyword| <= |line| && line[..|keyword|] == keyword
    ensures StartsWith(Lower(line), Lower(keyword))
  {
    assert Lower(line)[..|keyword|] == Lower(keyword);
    StartsWithSlice(Lower(line), Lower(keyword));
  }

  /** `<keyword> <key>` is already stripped and splits at the space after the keyword. */
  lemma RecallFormParts(keyword: string, key: string)
    requires keyword != [] && ' ' !in keyword && !IsSpace(keyword[0])
    requires IsTrimmed(key) && key != []
    ensures Strip(keyword + " " + key) == keyword + " " + key
    ensures SplitFirst(keyword + " " + key, ' ') == Some((keyword, key))
  {
    var text := keyword + " " + key;
    assert text == keyword + [' '] + key;
    assert text[0] == keyword[0];
    assert text[|text| - 1] == key[|key| - 1];
    StripTrimmed(text);
    SplitFirstAt(keyword, ' ', key);
  }

  /** The `learn` branch of `Parse`, taken whenever the lowered line starts with `learn`. */
  lemma ParseLearnBranch(text: string)
    requires StartsWith(Lower(Strip(text)), "learn")
    ensures var p := Payload(Strip(text));
      Parse(text) == if p.None? then LearnUsage else LearnCmd(p.value.0, p.value.1)
  {
  }

  /** The `update` branch of `Parse`, taken when the lowered line starts with `update`. */
  lemma ParseUpdateBranch(text: string)
    requires StartsWith(Lower(Strip(text)), "update")
    ensures var p := Payload(Strip(text));
      Parse(text) == if p.None? then UpdateUsage else UpdateCmd(p.value.0, p.value.1)
  {
    KeywordInitials(Lower(Strip(text)));
  }

  /** The `recall` branch of `Parse`, taken when the lowered line starts with `recall`. */
  lemma ParseRecallBranch(text: string)
    requires StartsWith(Lower(Strip(text)), "recall")
    ensures var s := SplitFirst(Strip(text), ' ');
      Parse(text) == if s.None? then RecallUsage else RecallCmd(Strip(s.value.1))
  {
    KeywordInitials(Lower(Strip(text)));
  }

  /** `learn <key>: <value>`, keyword in any case, is understood as learning
      `value` under `key` for every stripped key without a colon and every
      stripped value. */
  lemma ParseLearnForm(keyword: string, key: string, value: string)
    requires Lower(keyword) == "learn"
    requires IsTrimmed(key) && IsTrimmed(value) && ':' !in key
    ensures Parse(keyword + " " + key + ": " + value) == LearnCmd(key, value)
  {
    var text := keyword + " " + key + ": " + value;
    KeywordShape(keyword, "learn");
    StripOfForm(keyword, key, value);
    PayloadOfForm(keyword, key, value);
    LowerPrefix(keyword + FormRest(key, value), keyword);
    ParseLearnBranch(text);
  }

  /** `update <key>: <value>`, keyword in any case, is understood as updating
      `key` to `value`. */
  lemma ParseUpdateForm(keyword: string, key: string, value: string)
    requires Lower(keyword) == "update"
    requires IsTrimmed(key) && IsTrimmed(value) && ':' !in key
    ensures Parse(keyword + " " + key + ": " + value) == UpdateCmd(key, value)
  {
    var text := keyword + " " + key + ": " + value;
    KeywordShape(keyword, "update");
    StripOfForm(keyword, key, value);
    PayloadOfForm(keyword, key, value);
    LowerPrefix(keyword + FormRest(key, value), keyword);
    ParseUpdateBranch(text);
  }

  /** `recall <key>`, keyword in any case, asks for every stripped,
      non-empty key, spaces and colons included. */
  lemma ParseRecallForm(keyword: string, key: string)
    requires Lower(keyword) == "recall"
    requires IsTrimmed(key) && key != []
    ensures Parse(keyword + " " + key) == RecallCmd(key)
  {
    var text := keyword + " " + key;
    KeywordShape(keyword, "recall");
    RecallFormParts(keyword, key);
    StripTrimmed(key);
    LowerPrefix(text, keyword);
    ParseRecallBranch(text);
  }

  /** `recall` alone, in any case, gets the usage hint. */
  lemma ParseRecallAlone(keyword: string)
    requires Lower(keyword) == "recall"
    ensures Parse(keyword) == RecallUsage
  {
    KeywordShape(keyword, "recall");
    LowerPrefix(keyword, keyword);
    StripTrimmed(keyword);
    ParseRecallBranch(keyword);
  }

  /** When no keyword prefix matches, the line lists the facts or gets the help text. */
  lemma ParseOtherBranch(text: string)
    requires !StartsWith(Lower(Strip(text)), "learn")
    requires !StartsWith(Lower(Strip(text)), "recall")
    requires !StartsWith(Lower(Strip(text)), "update")
    ensures Parse(text) == if Lower(Strip(text)) == "facts" then FactsCmd else HelpCmd
  {
  }

  /** Only the whole line `facts`, in any case and with any surrounding
      whitespace, lists the facts. */
  lemma ParseFactsExact(text: string)
    ensures Parse(text) == FactsCmd <==> Lower(Strip(text)) == "facts"
  {
    KeywordInitials(Lower(Strip(text)));
  }

  /** What handling `cmd` does to a store holding `facts` with its files in
      `folder`: the store afterwards (`facts'`, `folder'`) and the reply. */
  ghost predicate Outcome(cmd: Command, facts: map<string, string>, folder: map<string, string>,
                          facts': map<string, string>, folder': map<string, string>, reply: string)
  {
    match cmd
    case LearnCmd(key, value) =>
      reply == LearnedReply(key, value) && facts' == facts[key := value] && folder' == folder[FileName(key) := value]
    case LearnUsage => reply == LearnHint && facts' == facts && folder' == folder
    case RecallCmd(key) =>
      reply == Line(key, Lookup(facts, key)) && facts' == facts && folder' == folder
    case RecallUsage => reply == RecallHint && facts' == facts && folder' == folder
    case UpdateCmd(key, value) =>
      if key in facts then
        reply == UpdatedReply(key, value) && facts' == facts[key := value] && folder' == folder[FileName(key) := value]
      else
        reply == UnknownReply(key) && facts' == facts && folder' == folder
    case UpdateUsage => reply == UpdateHint && facts' == facts && folder' == folder
    case FactsCmd =>
      && facts' == facts && folder' == folder
      && (if facts == map[] then reply == NoFacts
          else exists ks :: Enumerates(ks, facts) && reply == JoinLines(Lines(ks, facts)))
    case HelpCmd => reply == HelpText && facts' == facts && folder' == folder
  }

  /** Running a command keeps the folder an exact mirror of reloadable facts
      when the value it writes is stripped and free of carriage returns and
      its key survives reloading. */
  lemma OutcomeKeepsMirror(cmd: Command, facts: map<string, string>, folder: map<string, string>,
                           facts': map<string, string>, folder': map<string, string>, reply: string)
    requires Mirrors(facts, folder) && Reloadable(facts)
    requires Outcome(cmd, facts, folder, facts', folder', reply)
    requires cmd.LearnCmd? || cmd.UpdateCmd? ==>
      IsTrimmed(cmd.value) && ReadsBack(cmd.value) && KeyReloads(cmd.key)
    ensures Mirrors(facts', folder') && Reloadable(facts')
  {
    if cmd.LearnCmd? || (cmd.UpdateCmd? && cmd.key in facts) {
      LearnKeepsMirror(facts, folder, cmd.key, cmd.value);
    }
  }

  /** One handled line keeps the folder an exact mirror of the facts, so a
      restart recovers them, as long as the key it writes survives the trip
      through a file name and the value holds no carriage return: `handle`
      only ever stores stripped values. */
  lemma HandleKeepsMirror(text: string, facts: map<string, string>, folder: map<string, string>,
                          facts': map<string, string>, folder': map<string, string>, reply: string)
    requires Mirrors(facts, folder) && Reloadable(facts)
    requires Outcome(Parse(text), facts, folder, facts', folder', reply)
    requires Parse(text).LearnCmd? || Parse(text).UpdateCmd? ==>
      KeyReloads(Parse(text).key) && ReadsBack(Parse(text).value)
    ensures Mirrors(facts', folder') && Reloadable(facts')
  {
    ParsedFieldsTrimmed(text);
    OutcomeKeepsMirror(Parse(text), facts, folder, facts', folder', reply);
  }

  class HumanLikeAI {
    const memory: HumanLikeMemory

    constructor (memory: HumanLikeMemory)
      ensures this.memory == memory
    {
      this.memory := memory;
    }

    /** `handle`: strip the line, pick the branch by its lowered prefix,
        parse the payload, run it against the store and reply, exactly as
        `Outcome` describes for the command `Parse` reads from the line. */
    method Handle(text: string) returns (reply: string)
      modifies memory
      ensures Outcome(Parse(text), old(memory.facts), old(memory.folder), memory.facts, memory.folder, reply)
    {
      var t := Strip(text);
      var lowered := Lower(t);
      KeywordInitials(lowered);
      if StartsWith(lowered, "learn") {
        ParseLearnBranch(text);
        var payload := Payload(t);
        if payload.None? {
          reply := LearnHint;
        } else {
          var (key, value) := payload.value;
          memory.Learn(key, value);
          reply := LearnedReply(key, value);
        }
      } else if StartsWith(lowered, "recall") {
        ParseRecallBranch(text);
        var afterSpace := SplitFirst(t, ' ');
        if afterSpace.None? {
          reply := RecallHint;
        } else {
          var key := Strip(afterSpace.value.1);
          reply := Line(key, memory.Recall(key));
        }
      } else if StartsWith(lowered, "update") {
        ParseUpdateBranch(text);
        var payload := Payload(t);
        if payload.None? {
          reply := UpdateHint;
        } else {
          var (key, value) := payload.value;
          var known := memory.Update(key, value);
          reply := if known then UpdatedReply(key, value) else UnknownReply(key);
        }
      } else if lowered == "facts" {
        ParseOtherBranch(text);
        var facts := memory.AllFacts();
        if facts != map[] {
          var ks, lines := ListFacts(facts);
          reply := JoinLines(lines);
        } else {
          reply := NoFacts;
        }
      } else {
        ParseOtherBranch(text);
        reply := HelpText;
      }
    }
  }
}
