/** The `key:value` parsing shared by the evaluation server's request parser and the
    two configuration readers: split each segment on `:`, key = trimmed part 0,
    value = trimmed part 1, further parts ignored, keys compared ignoring case;
    a segment without `:` or a repeated key raises an exception (`ToDictionary`).
    Case is folded with `Strings.ToLower`, which covers ASCII and Latin-1 only. */
module KeyValue {
  import opened Wrappers
  import opened Strings
  import opened Seqs

  datatype KvError =
    | MissingValue(segment: string)   // `f[1]` is out of range
    | DuplicateKey(key: string)       // `ToDictionary` saw the key twice

  /** A dictionary whose keys compare ignoring case: entries are stored under the key
      as `Fold` maps it. `StringComparer.OrdinalIgnoreCase` upper-cases every script;
      on keys made of ASCII and Latin-1 characters the two foldings identify the same
      keys, and beyond those (`Σ`/`σ`, `Ÿ`/`ÿ`) `Fold` keeps keys apart that the
      comparer identifies. */
  type Dict = map<string, string>

  function Fold(key: string): string {
    ToLower(key)
  }

  function Key(segment: string): string {
    Trim(Split(segment, ':')[0])
  }

  /** The segment has a part 1, i.e. it contains a `:`. */
  predicate HasValue(segment: string) {
    |Split(segment, ':')| >= 2
  }

  function Value(segment: string): string
    requires HasValue(segment)
  {
    Trim(Split(segment, ':')[1])
  }

  lemma HasValueIffColon(segment: string)
    ensures HasValue(segment) <==> ':' in segment
  {
  }

  /** The dictionary key of a segment. */
  function EntryKey(segment: string): string {
    Fold(Key(segment))
  }

  /** Every segment has a value and no two keys are equal ignoring case. */
  ghost predicate WellFormed(segments: seq<string>) {
    && (forall i :: 0 <= i < |segments| ==> HasValue(segments[i]))
    && DistinctImages(segments, EntryKey)
  }

  /** `segments.Select(x => x.Split(':')).ToDictionary(f => f[0].Trim(), f => f[1].Trim(),
      StringComparer.OrdinalIgnoreCase)`; the first offending segment decides the error. */
  function ParsePairs(segments: seq<string>): Result<Dict, KvError>
  {
    if |segments| == 0 then Ok(map[])
    else
      var init := segments[..|segments| - 1];
      var last := segments[|segments| - 1];
      match ParsePairs(init)
      case Err(e) => Err(e)
      case Ok(d) =>
        if !HasValue(last) then Err(MissingValue(last))
        else if EntryKey(last) in d then Err(DuplicateKey(Key(last)))
        else Ok(d[EntryKey(last) := Value(last)])
  }

  /** A further segment with a value and a new key adds its entry. */
  lemma ParsePairsSnoc(segments: seq<string>, d: Dict, last: string)
    requires ParsePairs(segments) == Ok(d) && HasValue(last) && EntryKey(last) !in d
    ensures ParsePairs(segments + [last]) == Ok(d[EntryKey(last) := Value(last)])
  {
    assert (segments + [last])[..|segments|] == segments;
  }

  /** A successful parse holds exactly the segments' keys. */
  lemma {:induction false} ParsePairsKeys(segments: seq<string>)
    ensures ParsePairs(segments).Ok? ==> ParsePairs(segments).value.Keys == Image(segments, EntryKey)
  {
    if |segments| > 0 {
      var init := segments[..|segments| - 1];
      var last := segments[|segments| - 1];
      assert segments == init + [last];
      ParsePairsKeys(init);
      ImageSnoc(init, last, EntryKey);
    }
  }

  /** The parse succeeds exactly when every segment has a value and the keys are
      distinct ignoring case; each segment's key then maps to its value. */
  lemma {:induction false} ParsePairsSpec(segments: seq<string>)
    ensures ParsePairs(segments).Ok? <==> WellFormed(segments)
    ensures ParsePairs(segments).Ok? ==>
              && ParsePairs(segments).value.Keys == Image(segments, EntryKey)
              && forall i :: 0 <= i < |segments| ==>
                   ParsePairs(segments).value[EntryKey(segments[i])] == Value(segments[i])
  {
    ParsePairsKeys(segments);
    if |segments| > 0 {
      var init := segments[..|segments| - 1];
      var last := segments[|segments| - 1];
      assert segments == init + [last];
      assert forall i :: 0 <= i < |init| ==> segments[i] == init[i];
      ParsePairsSpec(init);
      ParsePairsKeys(init);
      DistinctImagesSnoc(init, last, EntryKey);
      if ParsePairs(segments).Ok? {
        forall i | 0 <= i < |segments|
          ensures ParsePairs(segments).value[EntryKey(segments[i])] == Value(segments[i])
        {
          if i < |init| {
            assert EntryKey(init[i]) in Image(init, EntryKey);
          }
        }
      }
    }
  }

  /** Case-insensitive dictionary lookup; `None` is the `KeyNotFoundException`. */
  function Lookup(d: Dict, key: string): Option<string> {
    if Fold(key) in d then Some(d[Fold(key)]) else None
  }

  /** A configuration line that is not a `#` comment. */
  predicate IsContentLine(line: string) {
    !StartsWith(Trim(line), "#")
  }

  /** The `key: value` configuration readers keep every line that is not a `#` comment. */
  function ParseConfig(lines: seq<string>): Result<Dict, KvError>
  {
    ParsePairs(Filter(lines, IsContentLine))
  }

  /** A configuration parses exactly when its non-comment lines, blank ones included,
      are all `key:value` pairs with distinct keys; every such line's key then looks
      up its value. */
  lemma ParseConfigSpec(lines: seq<string>)
    ensures ParseConfig(lines).Ok? <==> WellFormed(Filter(lines, IsContentLine))
    ensures ParseConfig(lines).Ok? ==> forall i :: 0 <= i < |lines| && IsContentLine(lines[i]) ==>
              Lookup(ParseConfig(lines).value, Key(lines[i])) == Some(Value(lines[i]))
  {
    var content := Filter(lines, IsContentLine);
    ParsePairsSpec(content);
    if ParseConfig(lines).Ok? {
      forall i | 0 <= i < |lines| && IsContentLine(lines[i])
        ensures Lookup(ParseConfig(lines).value, Key(lines[i])) == Some(Value(lines[i]))
      {
        assert lines[i] in content;
        var j :| 0 <= j < |content| && content[j] == lines[i];
        assert EntryKey(content[j]) in Image(content, EntryKey);
      }
    }
  }
}
