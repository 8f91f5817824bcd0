/**
 * The fact store `HumanLikeMemory`: an in-memory dictionary from key to
 * value, mirrored into a folder holding one `<sanitized key>.txt` file per
 * key, and rebuilt from that folder at start-up.
 *
 * The folder is a map from file name to file contents; the order in which
 * the operating system lists it is a parameter of `Load`.
 */
module Memory {
  import opened Text

  /** What `recall` answers for a key that was never learned. */
  const NotRemembered := "I don't remember that yet."

  /** `facts.get(key, "I don't remember that yet.")`. */
  function Lookup(facts: map<string, string>, key: string): string
  {
    if key in facts then facts[key] else NotRemembered
  }

  /** The characters `_sanitize_filename` keeps. */
  predicate IsSafe(c: char)
  {
    IsAlnum(c) || c == '-' || c == '_' || c == '.'
  }

  /** `_sanitize_filename`: same length as the key, only safe characters,
      safe characters kept, every other character turned into `_`. */
  function SanitizeFilename(key: string): (r: string)
    ensures |r| == |key|
    ensures forall i :: 0 <= i < |r| ==> IsSafe(r[i])
    ensures forall i :: 0 <= i < |key| && IsSafe(key[i]) ==> r[i] == key[i]
    ensures forall i :: 0 <= i < |key| && !IsSafe(key[i]) ==> r[i] == '_'
  {
    if key == [] then []
    else [if IsSafe(key[0]) then key[0] else '_'] + SanitizeFilename(key[1..])
  }

  /** The name of the file that holds the value of `key`. */
  function FileName(key: string): string
  {
    SanitizeFilename(key) + ".txt"
  }

  /** `load` only looks at names ending in `.txt`. */
  predicate IsTxt(name: string)
  {
    EndsWith(name, ".txt")
  }

  /** The key `load` derives from a file name: the `.txt` suffix dropped and
      every `_` read back as a space. */
  function KeyOf(name: string): (key: string)
    requires IsTxt(name)
    ensures |key| == |name| - 4
    ensures forall i :: 0 <= i < |key| ==> key[i] == if name[i] == '_' then ' ' else name[i]
  {
    ReplaceChar(name[..|name| - 4], '_', ' ')
  }

  /** Characters that survive the trip through a file name and back. */
  predicate SurvivesReload(c: char)
  {
    IsAlnum(c) || c == '-' || c == '.' || c == ' '
  }

  /** A key every character of which survives the trip. */
  predicate KeyReloads(key: string)
  {
    forall i :: 0 <= i < |key| ==> SurvivesReload(key[i])
  }

  /** Sanitizing twice is sanitizing once. */
  lemma SanitizeIdempotent(key: string)
    ensures SanitizeFilename(SanitizeFilename(key)) == SanitizeFilename(key)
  {
  }

  /** Reading a key back from its own file name gives the key exactly when
      every character is alphanumeric, `-`, `.` or a space: an original `_`
      or any other special character comes back as a space. */
  lemma FileNameRoundTrip(key: string)
    ensures IsTxt(FileName(key))
    ensures KeyOf(FileName(key)) == key <==> KeyReloads(key)
  {
    var n := FileName(key);
    assert n[|n| - 4..] == ".txt";
    assert n[..|n| - 4] == SanitizeFilename(key);
    if !KeyReloads(key) {
      var i :| 0 <= i < |key| && !SurvivesReload(key[i]);
      assert KeyOf(n)[i] == ' ' != key[i];
    }
  }

  /** Two different keys can share a file: "a/b" and "a:b" both live in `a_b.txt`. */
  lemma FileNameCollision()
    ensures FileName("a/b") == FileName("a:b") == "a_b.txt"
    ensures KeyOf(FileName("a/b")) == "a b"
  {
    assert SanitizeFilename("a/b") == "a_b";
    assert SanitizeFilename("a:b") == "a_b";
    assert KeyOf("a_b.txt") == "a b";
  }

  /** A value with no carriage return, which text mode reads back as written. */
  predicate ReadsBack(value: string)
  {
    '\r' !in value
  }

  /** What `f.read()` returns for a file opened in text mode: universal
      newlines turn `\r\n` and a lone `\r` into `\n`; anything else is
      read back as written. */
  function ReadText(written: string): string
  {
    ReadFrom(written, 0)
  }

  /** What text mode reads from position `i` of the written text onwards. */
  function ReadFrom(written: string, i: nat): string
    requires i <= |written|
    decreases |written| - i
  {
    if i == |written| then []
    else if written[i] == '\r' then
      if i + 1 < |written| && written[i + 1] == '\n' then ['\n'] + ReadFrom(written, i + 2)
      else ['\n'] + ReadFrom(written, i + 1)
    else [written[i]] + ReadFrom(written, i + 1)
  }

  /** Text without a carriage return reads back exactly as written. */
  lemma ReadTextUnchanged(written: string)
    requires ReadsBack(written)
    ensures ReadText(written) == written
  {
    ReadFromUnchanged(written, 0);
  }

  lemma {:induction false} ReadFromUnchanged(written: string, i: nat)
    requires i <= |written| && ReadsBack(written)
    ensures ReadFrom(written, i) == written[i..]
    decreases |written| - i
  {
    if i < |written| {
      assert written[i] != '\r';
      ReadFromUnchanged(written, i + 1);
      assert written[i..] == [written[i]] + written[i + 1..];
    }
  }

  /** No carriage return survives reading in text mode. */
  lemma ReadTextNoCarriageReturn(written: string)
    ensures ReadsBack(ReadText(written))
  {
    ReadFromNoCarriageReturn(written, 0);
  }

  lemma {:induction false} ReadFromNoCarriageReturn(written: string, i: nat)
    requires i <= |written|
    ensures ReadsBack(ReadFrom(written, i))
    decreases |written| - i
  {
    if i < |written| {
      if written[i] == '\r' && i + 1 < |written| && written[i + 1] == '\n' {
        ReadFromNoCarriageReturn(written, i + 2);
      } else {
        ReadFromNoCarriageReturn(written, i + 1);
      }
    }
  }

  /** A value holding a carriage return does not read back as written. */
  lemma CarriageReturnLost(value: string)
    requires !ReadsBack(value)
    ensures ReadText(value) != value
  {
    ReadTextNoCarriageReturn(value);
  }

  /** The value `load` keeps from a file: its contents read back, stripped. */
  function FileValue(content: string): string
  {
    Strip(ReadText(content))
  }

  /** One step of `load`: a `.txt` file sets its derived key to its value;
      any other name changes nothing. */
  function LoadFile(facts: map<string, string>, folder: map<string, string>, name: string): map<string, string>
    requires name in folder
  {
    if IsTxt(name) then facts[KeyOf(name) := FileValue(folder[name])] else facts
  }

  /** The facts `load` builds: starting from `facts`, every `.txt` name of the
      listing in turn sets its derived key to the stripped contents read back
      from the file. */
  function Loaded(facts: map<string, string>, listing: seq<string>, folder: map<string, string>): map<string, string>
    requires forall n :: n in listing ==> n in folder
    decreases listing
  {
    if listing == [] then facts
    else Loaded(LoadFile(facts, folder, listing[0]), listing[1..], folder)
  }

  /** A key is present after loading exactly when it was present before or
      some `.txt` name of the listing derives it. */
  lemma {:induction false} LoadedKeys(facts: map<string, string>, listing: seq<string>, folder: map<string, string>, key: string)
    requires forall n :: n in listing ==> n in folder
    ensures key in Loaded(facts, listing, folder) <==>
      key in facts || exists i :: 0 <= i < |listing| && IsTxt(listing[i]) && KeyOf(listing[i]) == key
    decreases listing
  {
    if listing != [] {
      LoadedStep(facts, listing, folder);
      var next := LoadFile(facts, folder, listing[0]);
      LoadedKeys(next, listing[1..], folder, key);
      if exists i :: 0 <= i < |listing| && IsTxt(listing[i]) && KeyOf(listing[i]) == key {
        var i :| 0 <= i < |listing| && IsTxt(listing[i]) && KeyOf(listing[i]) == key;
        if i > 0 {
          assert listing[1..][i - 1] == listing[i];
        }
      }
      if exists j :: 0 <= j < |listing| - 1 && IsTxt(listing[1..][j]) && KeyOf(listing[1..][j]) == key {
        var j :| 0 <= j < |listing| - 1 && IsTxt(listing[1..][j]) && KeyOf(listing[1..][j]) == key;
        assert listing[j + 1] == listing[1..][j];
      }
    }
  }

  /** Loading a non-empty listing is loading its first name, then the rest. */
  lemma LoadedStep(facts: map<string, string>, listing: seq<string>, folder: map<string, string>)
    requires forall n :: n in listing ==> n in folder
    requires listing != []
    ensures forall n :: n in listing[1..] ==> n in folder
    ensures Loaded(facts, listing, folder) == Loaded(LoadFile(facts, folder, listing[0]), listing[1..], folder)
  {
  }

  /** The last `.txt` name of the listing that derives a key decides its value. */
  lemma {:induction false} LoadedLastWins(facts: map<string, string>, listing: seq<string>, folder: map<string, string>, i: nat)
    requires forall n :: n in listing ==> n in folder
    requires i < |listing| && IsTxt(listing[i])
    requires forall j :: i < j < |listing| && IsTxt(listing[j]) ==> KeyOf(listing[j]) != KeyOf(listing[i])
    ensures var key := KeyOf(listing[i]);
      key in Loaded(facts, listing, folder) && Loaded(facts, listing, folder)[key] == FileValue(folder[listing[i]])
    decreases listing
  {
    if i == 0 {
      LoadedFirstWins(facts, listing, folder);
    } else {
      var next := LoadFile(facts, folder, listing[0]);
      LoadedStep(facts, listing, folder);
      LastNameShifted(listing, i);
      assert listing[1..][i - 1] == listing[i];
      LoadedLastWins(next, listing[1..], folder, i - 1);
      assert Loaded(facts, listing, folder) == Loaded(next, listing[1..], folder);
    }
  }

  /** A first `.txt` name that no later name shares a key with decides its key. */
  lemma LoadedFirstWins(facts: map<string, string>, listing: seq<string>, folder: map<string, string>)
    requires forall n :: n in listing ==> n in folder
    requires listing != [] && IsTxt(listing[0])
    requires forall j :: 0 < j < |listing| && IsTxt(listing[j]) ==> KeyOf(listing[j]) != KeyOf(listing[0])
    ensures var key := KeyOf(listing[0]);
      key in Loaded(facts, listing, folder) && Loaded(facts, listing, folder)[key] == FileValue(folder[listing[0]])
  {
    LoadedStep(facts, listing, folder);
    var next := LoadFile(facts, folder, listing[0]);
    assert next == facts[KeyOf(listing[0]) := FileValue(folder[listing[0]])];
    LastNameAvoided(listing);
    LoadedUntouched(next, listing[1..], folder, KeyOf(listing[0]));
  }

  /** When the first name is the last to derive its key, no later name does. */
  lemma LastNameAvoided(listing: seq<string>)
    requires listing != [] && IsTxt(listing[0])
    requires forall j :: 0 < j < |listing| && IsTxt(listing[j]) ==> KeyOf(listing[j]) != KeyOf(listing[0])
    ensures forall j :: 0 <= j < |listing| - 1 && IsTxt(listing[1..][j]) ==> KeyOf(listing[1..][j]) != KeyOf(listing[0])
  {
    forall j | 0 <= j < |listing| - 1 && IsTxt(listing[1..][j])
      ensures KeyOf(listing[1..][j]) != KeyOf(listing[0])
    {
      assert listing[1..][j] == listing[j + 1];
    }
  }

  /** Being the last name to derive a key survives dropping the first name. */
  lemma LastNameShifted(listing: seq<string>, i: nat)
    requires 0 < i < |listing| && IsTxt(listing[i])
    requires forall j :: i < j < |listing| && IsTxt(listing[j]) ==> KeyOf(listing[j]) != KeyOf(listing[i])
    ensures forall j :: i - 1 < j < |listing| - 1 && IsTxt(listing[1..][j]) ==> KeyOf(listing[1..][j]) != KeyOf(listing[1..][i - 1])
  {
    forall j | i - 1 < j < |listing| - 1 && IsTxt(listing[1..][j])
      ensures KeyOf(listing[1..][j]) != KeyOf(listing[1..][i - 1])
    {
      assert listing[1..][j] == listing[j + 1];
    }
  }

  /** A key no `.txt` name of the listing derives keeps its value. */
  lemma {:induction false} LoadedUntouched(facts: map<string, string>, listing: seq<string>, folder: map<string, string>, key: string)
    requires forall n :: n in listing ==> n in folder
    requires key in facts
    requires forall j :: 0 <= j < |listing| && IsTxt(listing[j]) ==> KeyOf(listing[j]) != key
    ensures key in Loaded(facts, listing, folder) && Loaded(facts, listing, folder)[key] == facts[key]
    decreases listing
  {
    if listing != [] {
      LoadedStep(facts, listing, folder);
      var next := LoadFile(facts, folder, listing[0]);
      forall j | 0 <= j < |listing| - 1 && IsTxt(listing[1..][j])
        ensures KeyOf(listing[1..][j]) != key
      {
        assert listing[1..][j] == listing[j + 1];
      }
      LoadedUntouched(next, listing[1..], folder, key);
    }
  }

  /** `listing` is what `os.listdir` returns for `folder`: every entry once. */
  ghost predicate Lists(listing: seq<string>, folder: map<string, string>)
  {
    (forall n :: n in listing <==> n in folder) &&
    (forall i, j :: 0 <= i < j < |listing| ==> listing[i] != listing[j])
  }

  /** The folder holds exactly one file per fact, named after the key and
      containing its value, and nothing else. */
  ghost predicate Mirrors(facts: map<string, string>, folder: map<string, string>)
  {
    (forall k :: k in facts ==> FileName(k) in folder && folder[FileName(k)] == facts[k]) &&
    (forall n :: n in folder ==> IsTxt(n) && KeyOf(n) in facts && FileName(KeyOf(n)) == n)
  }

  /** Facts whose keys survive the file-name round trip and whose values
      have no surrounding whitespace (what `load` strips away) and no
      carriage return (what reading in text mode translates). */
  ghost predicate Reloadable(facts: map<string, string>)
  {
    forall k :: k in facts ==> KeyReloads(k) && IsTrimmed(facts[k]) && ReadsBack(facts[k])
  }

  /** `learn` keeps the folder a mirror of reloadable facts as long as the
      key survives the round trip (otherwise two keys may share a file) and
      the value is stripped and holds no carriage return. */
  lemma LearnKeepsMirror(facts: map<string, string>, folder: map<string, string>, key: string, value: string)
    requires Mirrors(facts, folder) && Reloadable(facts)
    requires KeyReloads(key)
    requires IsTrimmed(value) && ReadsBack(value)
    ensures Mirrors(facts[key := value], folder[FileName(key) := value])
    ensures Reloadable(facts[key := value])
  {
    var facts', folder' := facts[key := value], folder[FileName(key) := value];
    FileNameRoundTrip(key);
    forall k | k in facts'
      ensures FileName(k) in folder' && folder'[FileName(k)] == facts'[k]
    {
      if k != key {
        FileNameRoundTrip(k);
        assert KeyOf(FileName(k)) == k;
        assert FileName(k) != FileName(key);
        assert FileName(k) in folder;
      }
    }
    forall n | n in folder'
      ensures IsTxt(n) && KeyOf(n) in facts' && FileName(KeyOf(n)) == n
    {
      if n != FileName(key) {
        assert n in folder;
      }
    }
  }

  /** In a listing of a mirror folder, no two `.txt` names derive the same key. */
  lemma ListedKeysDistinct(facts: map<string, string>, folder: map<string, string>, listing: seq<string>, i: nat)
    requires Mirrors(facts, folder) && Lists(listing, folder)
    requires i < |listing|
    ensures forall j :: i < j < |listing| && IsTxt(listing[j]) ==> KeyOf(listing[j]) != KeyOf(listing[i])
  {
    forall j | i < j < |listing| && IsTxt(listing[j])
      ensures KeyOf(listing[j]) != KeyOf(listing[i])
    {
      assert listing[i] in folder && listing[j] in folder;
      assert FileName(KeyOf(listing[i])) == listing[i];
      assert FileName(KeyOf(listing[j])) == listing[j];
      assert listing[j] != listing[i];
    }
  }

  /** Loading a mirror folder recovers each stored fact. */
  lemma RestartKeeps(facts: map<string, string>, folder: map<string, string>, listing: seq<string>, k: string)
    requires Mirrors(facts, folder) && Reloadable(facts) && Lists(listing, folder)
    requires k in facts
    ensures k in Loaded(map[], listing, folder) && Loaded(map[], listing, folder)[k] == facts[k]
  {
    var n := FileName(k);
    FileNameRoundTrip(k);
    assert n in folder && folder[n] == facts[k];
    assert n in listing;
    var i :| 0 <= i < |listing| && listing[i] == n;
    ListedKeysDistinct(facts, folder, listing, i);
    LoadedLastWins(map[], listing, folder, i);
    ReadTextUnchanged(facts[k]);
    assert FileValue(facts[k]) == Strip(facts[k]);
    StripTrimmed(facts[k]);
  }

  /** Restarting recovers the facts: loading a folder that mirrors reloadable
      facts, in any listing order, rebuilds exactly those facts. */
  lemma Restart(facts: map<string, string>, folder: map<string, string>, listing: seq<string>)
    requires Mirrors(facts, folder) && Reloadable(facts) && Lists(listing, folder)
    ensures Loaded(map[], listing, folder) == facts
  {
    RestartKeepsAll(facts, folder, listing);
    RestartAddsNone(facts, folder, listing);
    SameEntries(Loaded(map[], listing, folder), facts);
  }

  /** Two maps with the same keys and the same value at each key are equal. */
  lemma SameEntries(a: map<string, string>, b: map<string, string>)
    requires forall k :: k in b ==> k in a && a[k] == b[k]
    requires forall k :: k in a ==> k in b
    ensures a == b
  {
    assert a.Keys == b.Keys;
  }

  /** Every stored fact comes back from a mirror folder with its value. */
  lemma RestartKeepsAll(facts: map<string, string>, folder: map<string, string>, listing: seq<string>)
    requires Mirrors(facts, folder) && Reloadable(facts) && Lists(listing, folder)
    ensures forall k :: k in facts ==> k in Loaded(map[], listing, folder) && Loaded(map[], listing, folder)[k] == facts[k]
  {
    forall k | k in facts
      ensures k in Loaded(map[], listing, folder) && Loaded(map[], listing, folder)[k] == facts[k]
    {
      RestartKeeps(facts, folder, listing, k);
    }
  }

  /** Nothing but the stored facts comes back from a mirror folder. */
  lemma RestartAddsNone(facts: map<string, string>, folder: map<string, string>, listing: seq<string>)
    requires Mirrors(facts, folder) && Lists(listing, folder)
    ensures forall k :: k in Loaded(map[], listing, folder) ==> k in facts
  {
    forall k | k in Loaded(map[], listing, folder)
      ensures k in facts
    {
      RestartAddsNothing(facts, folder, listing, k);
    }
  }

  /** Loading a mirror folder brings back no key that was not stored. */
  lemma RestartAddsNothing(facts: map<string, string>, folder: map<string, string>, listing: seq<string>, k: string)
    requires Mirrors(facts, folder) && Lists(listing, folder)
    requires k in Loaded(map[], listing, folder)
    ensures k in facts
  {
    LoadedKeys(map[], listing, folder, k);
    var i :| 0 <= i < |listing| && IsTxt(listing[i]) && KeyOf(listing[i]) == k;
    assert listing[i] in folder;
  }

  class HumanLikeMemory {
    /** The dictionary `self.facts`. */
    var facts: map<string, string>
    /** The storage folder: file name to file contents. */
    var folder: map<string, string>

    /** `__init__`: the folder as found on disk, `listing` the order in which
        it is listed, then `load` into an empty dictionary. */
    constructor (initial: map<string, string>, listing: seq<string>)
      requires Lists(listing, initial)
      ensures folder == initial
      ensures facts == Loaded(map[], listing, initial)
    {
      facts := map[];
      folder := initial;
      new;
      Load(listing);
    }

    /** `learn`: sets the key and overwrites its file; nothing else changes. */
    method Learn(key: string, value: string)
      modifies this
      ensures facts == old(facts)[key := value]
      ensures folder == old(folder)[FileName(key) := value]
      ensures Recall(key) == value
      ensures forall k :: k != key ==> Recall(k) == old(Recall(k))
    {
      facts := facts[key := value];
      folder := folder[FileName(key) := value];
    }

    /** `recall`: the stored value, or the fixed sentinel for an unknown key. */
    function Recall(key: string): (r: string)
      reads this
      ensures key in facts ==> r == facts[key]
      ensures key !in facts ==> r == NotRemembered
    {
      Lookup(facts, key)
    }

    /** `update`: on a known key the effect of `learn` and `true`; on an
        unknown key `false` and no change at all. */
    method Update(key: string, value: string) returns (known: bool)
      modifies this
      ensures known <==> key in old(facts)
      ensures known ==> facts == old(facts)[key := value] && folder == old(folder)[FileName(key) := value]
      ensures !known ==> facts == old(facts) && folder == old(folder)
    {
      known := key in facts;
      if known {
        Learn(key, value);
      }
    }

    /** `all_facts`: a copy of the dictionary; a Dafny map is a value, so
        nothing the caller does to it reaches the store. */
    method AllFacts() returns (copy: map<string, string>)
      ensures copy == facts
    {
      copy := facts;
    }

    /** `load`: every `.txt` name of the listing, in order, sets its derived
        key to the stripped file contents. */
    method Load(listing: seq<string>)
      requires forall n :: n in listing ==> n in folder
      modifies this
      ensures folder == old(folder)
      ensures facts == Loaded(old(facts), listing, folder)
    {
      var i := 0;
      while i < |listing|
        invariant 0 <= i <= |listing|
        invariant folder == old(folder)
        invariant Loaded(facts, listing[i..], folder) == Loaded(old(facts), listing, folder)
      {
        var name := listing[i];
        LoadedStep(facts, listing[i..], folder);
        assert listing[i..][0] == name && listing[i..][1..] == listing[i + 1..];
        if IsTxt(name) {
          var key := KeyOf(name);
          var value := Strip(ReadText(folder[name]));
          facts := facts[key := value];
        }
        i := i + 1;
      }
    }
  }
}
