/** The model-configuration step of the Caffe recognizer host: read the `key: value`
    file, look up the network files and resolve each against the configuration
    file's directory. */
module CaffeHost {
  import opened Wrappers
  import opened Strings
  import opened KeyValue
  import opened Paths
  import opened Seqs

  /** The files `InitializeRecognizer` hands to the predictor. */
  datatype ModelFiles = ModelFiles(proto: string, model: string, mean: string, labelMap: string,
                                   entityInfo: Option<string>)

  datatype ConfigFault =
    | BadConfig(cause: KvError)     // the `ToDictionary` call raised
    | MissingKey(key: string)       // `modelDict[key]` raised `KeyNotFoundException`

  const EntityInfoKey: string := "entityinfo"

  /** The optional entity-information file: present only under a non-empty value. */
  function EntityInfo(dir: string, d: Dict): Option<string> {
    match Lookup(d, EntityInfoKey)
    case Some(v) => if v != "" then Some(Combine(dir, v)) else None
    case None => None
  }

  /** The configuration part of `InitializeRecognizer` for the file at `cfgPath`
      with contents `lines`; the required keys are read in the order `proto`, `model`,
      `mean`, `labelmap`, and the first one missing raises. */
  function ResolveModelConfig(cfgPath: string, lines: seq<string>): (r: Result<ModelFiles, ConfigFault>)
    ensures r.Ok? <==> && ParseConfig(lines).Ok?
                       && Lookup(ParseConfig(lines).value, "proto").Some?
                       && Lookup(ParseConfig(lines).value, "model").Some?
                       && Lookup(ParseConfig(lines).value, "mean").Some?
                       && Lookup(ParseConfig(lines).value, "labelmap").Some?
    ensures ParseConfig(lines).Err? ==> r == Err(BadConfig(ParseConfig(lines).error))
  {
    var dir := DirectoryName(cfgPath);
    match ParseConfig(lines)
    case Err(e) => Err(BadConfig(e))
    case Ok(d) =>
      match Lookup(d, "proto")
      case None => Err(MissingKey("proto"))
      case Some(proto) =>
        match Lookup(d, "model")
        case None => Err(MissingKey("model"))
        case Some(model) =>
          match Lookup(d, "mean")
          case None => Err(MissingKey("mean"))
          case Some(mean) =>
            match Lookup(d, "labelmap")
            case None => Err(MissingKey("labelmap"))
            case Some(labelMap) =>
              Ok(ModelFiles(Combine(dir, proto), Combine(dir, model), Combine(dir, mean),
                            Combine(dir, labelMap), EntityInfo(dir, d)))
  }

  /** A configured value stops at the second `:` of its line, so it never holds one. */
  lemma ValueHasNoColon(segment: string)
    requires HasValue(segment)
    ensures ':' !in Value(segment)
  {
    var part := Split(segment, ':')[1];
    TrimSpec(part);
    var t := Value(segment);
    var i := |part| - |TrimStart(part)|;
    forall k | 0 <= k < |t| ensures t[k] != ':' {
      assert t[k] == part[i + k];
    }
  }

  /** The keys the host reads are already lower case. */
  lemma KeysFolded()
    ensures Fold("proto") == "proto" && Fold("model") == "model" && Fold("mean") == "mean"
    ensures Fold("labelmap") == "labelmap" && Fold(EntityInfoKey) == EntityInfoKey
  {
  }

  /** A content line of a configuration that resolves decides the file of its key: its
      value, combined with the configuration's directory; for `entityinfo`, only when
      the value is not empty. */
  lemma ResolvedFromLine(cfgPath: string, lines: seq<string>, i: nat)
    requires i < |lines| && IsContentLine(lines[i])
    requires ResolveModelConfig(cfgPath, lines).Ok?
    ensures HasValue(lines[i])
    ensures var files := ResolveModelConfig(cfgPath, lines).value;
            var key, v, dir := EntryKey(lines[i]), Value(lines[i]), DirectoryName(cfgPath);
            && (key == "proto" ==> files.proto == Combine(dir, v))
            && (key == "model" ==> files.model == Combine(dir, v))
            && (key == "mean" ==> files.mean == Combine(dir, v))
            && (key == "labelmap" ==> files.labelMap == Combine(dir, v))
            && (key == EntityInfoKey ==> files.entityInfo == if v == "" then None else Some(Combine(dir, v)))
  {
    ParseConfigSpec(lines);
    var d := ParseConfig(lines).value;
    var content := Filter(lines, IsContentLine);
    assert lines[i] in content;
    assert d[EntryKey(lines[i])] == Value(lines[i]) by {
      assert Lookup(d, Key(lines[i])) == Some(Value(lines[i]));
    }
    KeysFolded();
  }
}
