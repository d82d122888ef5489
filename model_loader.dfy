/**
 * `load_latest_model` from sources/model_loader.py: pick the newest trained
 * artifact of a model family out of a directory listing, derive its
 * timestamp token and the name of its metadata sidecar, and load both.
 *
 * The directory is a value: the listing `os.listdir` returns, the payload
 * `joblib.load` yields for each artifact it can deserialise, and for each
 * metadata file that exists, the record `json.load` parses from it (`None`
 * when it does not parse).
 */
module ModelLoader {
  import opened Wrappers
  import opened Strings

  const ModelSuffix: string := ".joblib"
  const MetadataSuffix: string := ".json"

  /** A model directory as the loader sees it, over payload type `M` and metadata type `D`. */
  datatype ModelDir<M, D> = ModelDir(
    path: string,                              // model_dir, as named in errors
    entries: seq<string>,                      // os.listdir(model_dir)
    payloads: map<string, M>,                  // file name -> what joblib.load returns
    metadataFiles: map<string, Option<D>>      // existing file name -> json.load result, None if it raises
  )

  datatype LoadError =
    | NoModelFound(key: string, dir: string)  // the FileNotFoundError of the source
    | ArtifactLoadFailed(file: string)        // joblib.load raised
    | MetadataParseFailed(file: string)       // json.load raised on an existing file

  /** What `load_latest_model` returns: `(model, metadata, model_file)`. */
  datatype Loaded<M, D> = Loaded(model: M, metadata: Option<D>, modelFile: string)

  /** The list-comprehension test: prefix `key + "_model"` (no trailing underscore) and suffix ".joblib". */
  predicate IsCandidate(key: string, f: string) {
    StartsWith(f, key + "_model") && EndsWith(f, ModelSuffix)
  }

  /** The list comprehension over the listing: exactly the candidate entries. */
  function Candidates(key: string, entries: seq<string>): (r: seq<string>)
    ensures forall f :: f in r <==> f in entries && IsCandidate(key, f)
  {
    if entries == [] then []
    else
      var rest := Candidates(key, entries[1..]);
      assert forall f :: f in entries <==> f == entries[0] || f in entries[1..];
      if IsCandidate(key, entries[0]) then [entries[0]] + rest else rest
  }

  // ---------------------------------------------------------------------------
  // sorted(..., reverse=True)
  // ---------------------------------------------------------------------------

  /** Descending in Python's string order. */
  predicate SortedDesc(s: seq<string>) {
    forall i, j :: 0 <= i < j < |s| ==> LexLe(s[j], s[i])
  }

  function InsertDesc(x: string, s: seq<string>): (r: seq<string>)
    requires SortedDesc(s)
    ensures SortedDesc(r)
    ensures multiset(r) == multiset(s) + multiset{x}
  {
    if s == [] then [x]
    else if LexLe(s[0], x) then
      forall j | 0 <= j < |s| ensures LexLe(s[j], x) {
        if j > 0 { LexLeTransitive(s[j], s[0], x); }
      }
      [x] + s
    else
      LexLeTotal(s[0], x);
      var t := InsertDesc(x, s[1..]);
      assert s == [s[0]] + s[1..];
      forall y | y in t ensures LexLe(y, s[0]) {
        assert y in multiset(t);
        if y != x {
          assert y in multiset(s[1..]);
          assert y in s[1..];
        }
      }
      [s[0]] + t
  }

  /** `sorted(s, reverse=True)`: the same multiset of names, greatest first. */
  function SortDesc(s: seq<string>): (r: seq<string>)
    ensures SortedDesc(r)
    ensures multiset(r) == multiset(s)
  {
    if s == [] then []
    else
      assert s == [s[0]] + s[1..];
      InsertDesc(s[0], SortDesc(s[1..]))
  }

  /** The head of a descending sort is greater than or equal to every element. */
  lemma HeadOfSortDescIsGreatest(s: seq<string>)
    requires s != []
    ensures var r := SortDesc(s);
      r != [] && r[0] in s && forall f :: f in s ==> LexLe(f, r[0])
  {
    var r := SortDesc(s);
    assert |r| == |multiset(s)| == |s|;
    assert r[0] in multiset(r);
    forall f | f in s ensures LexLe(f, r[0]) {
      assert f in multiset(r);
      var j :| 0 <= j < |r| && r[j] == f;
      if j == 0 { LexLeRefl(f); }
    }
  }

  // ---------------------------------------------------------------------------
  // Selection and naming
  // ---------------------------------------------------------------------------

  /**
   * `model_files[0]` after the sort, or None when `model_files` is empty:
   * None exactly when no listed name is a candidate, and otherwise a listed
   * candidate.
   */
  function Selected(key: string, entries: seq<string>): (r: Option<string>)
    ensures r.None? <==> forall f :: f in entries ==> !IsCandidate(key, f)
    ensures r.Some? ==> r.value in entries && IsCandidate(key, r.value)
  {
    var candidates := Candidates(key, entries);
    var modelFiles := SortDesc(candidates);
    if modelFiles == [] then
      assert multiset(candidates) == multiset{};
      None
    else
      assert modelFiles[0] in multiset(candidates);
      assert modelFiles[0] in candidates;
      Some(modelFiles[0])
  }

  /** `model_file.split("_")[-1].replace(".joblib", "")`: a token that never contains `_`. */
  function TimestampOf(modelFile: string): (r: string)
    ensures '_' !in r
  {
    var parts := Split(modelFile, '_');
    assert '_' !in parts[|parts| - 1];
    RemoveAll(Last(parts), ModelSuffix)
  }

  /**
   * `f"{model_key}_metadata_{timestamp}.json"`: the key's metadata prefix,
   * then the timestamp, which can be read back, then ".json".
   */
  function MetadataFileName(key: string, timestamp: string): (r: string)
    ensures StartsWith(r, key + "_metadata_") && EndsWith(r, MetadataSuffix)
    ensures |r| == |key + "_metadata_"| + |timestamp| + |MetadataSuffix|
    ensures r[|key + "_metadata_"|..|r| - |MetadataSuffix|] == timestamp
  {
    var r := key + "_metadata_" + timestamp + MetadataSuffix;
    assert r == (key + "_metadata_") + timestamp + MetadataSuffix;
    r
  }

  /** The artifact name the training step writes for a timestamp. */
  function ArtifactName(key: string, ts: string): string {
    key + "_model_" + ts + ModelSuffix
  }

  /**
   * The whole of `load_latest_model(model_dir, model_key)`. A load that
   * succeeds returns a listed candidate with the payload of that file, and
   * metadata only when the derived metadata file exists.
   */
  function LoadLatestModel<M, D>(dir: ModelDir<M, D>, key: string): (r: Result<Loaded<M, D>, LoadError>)
    ensures r.Success? ==>
      && r.value.modelFile in dir.entries && IsCandidate(key, r.value.modelFile)
      && r.value.modelFile in dir.payloads && r.value.model == dir.payloads[r.value.modelFile]
    ensures r.Success? && r.value.metadata.Some? ==>
      MetadataFileName(key, TimestampOf(r.value.modelFile)) in dir.metadataFiles
  {
    match Selected(key, dir.entries)
    case None => Failure(NoModelFound(key, dir.path))
    case Some(modelFile) =>
      var timestamp := TimestampOf(modelFile);
      if modelFile !in dir.payloads then Failure(ArtifactLoadFailed(modelFile))
      else
        var model := dir.payloads[modelFile];
        var metadataFile := MetadataFileName(key, timestamp);
        if metadataFile !in dir.metadataFiles then Success(Loaded(model, None, modelFile))
        else match dir.metadataFiles[metadataFile]
          case None => Failure(MetadataParseFailed(metadataFile))
          case Some(metadata) => Success(Loaded(model, Some(metadata), modelFile))
  }

  // ---------------------------------------------------------------------------
  // Properties
  // ---------------------------------------------------------------------------

  /** The file selected is the greatest candidate in Python's string order. */
  lemma SelectedIsGreatestCandidate(key: string, entries: seq<string>)
    ensures Selected(key, entries).Some? ==>
      forall f :: f in entries && IsCandidate(key, f) ==> LexLe(f, Selected(key, entries).value)
  {
    var c := Candidates(key, entries);
    if c != [] {
      HeadOfSortDescIsGreatest(c);
    }
  }

  /** The selection depends only on which names are listed, not on their order or repetition. */
  lemma SelectionIgnoresListingOrder(key: string, entries1: seq<string>, entries2: seq<string>)
    requires forall f :: f in entries1 <==> f in entries2
    ensures Selected(key, entries1) == Selected(key, entries2)
  {
    SelectedIsGreatestCandidate(key, entries1);
    SelectedIsGreatestCandidate(key, entries2);
    var s1, s2 := Selected(key, entries1), Selected(key, entries2);
    if s1.Some? && s2.Some? {
      LexLeAntisymmetric(s1.value, s2.value);
    }
  }

  /** Loading fails with the not-found error, naming key and directory, exactly when no entry is a candidate. */
  lemma NotFoundIffNoCandidate<M, D>(dir: ModelDir<M, D>, key: string)
    ensures LoadLatestModel(dir, key) == Failure(NoModelFound(key, dir.path))
        <==> forall f :: f in dir.entries ==> !IsCandidate(key, f)
  {
  }

  /**
   * A successful load returns the greatest candidate as `model_file`, the
   * payload of that file, and metadata that is None exactly when the derived
   * metadata file is absent and otherwise is the record parsed from it.
   */
  lemma LoadedIsLatestWithItsMetadata<M, D>(dir: ModelDir<M, D>, key: string)
    requires LoadLatestModel(dir, key).Success?
    ensures var l := LoadLatestModel(dir, key).value;
      var metadataFile := key + "_metadata_" + TimestampOf(l.modelFile) + ".json";
      && l.modelFile in dir.entries && IsCandidate(key, l.modelFile)
      && (forall f :: f in dir.entries && IsCandidate(key, f) ==> LexLe(f, l.modelFile))
      && l.modelFile in dir.payloads && l.model == dir.payloads[l.modelFile]
      && (l.metadata.None? <==> metadataFile !in dir.metadataFiles)
      && (l.metadata.Some? ==> dir.metadataFiles[metadataFile] == l.metadata)
  {
    SelectedIsGreatestCandidate(key, dir.entries);
  }

  /**
   * The outcome of every load that has a candidate, from the greatest
   * candidate `m` and its metadata name `mf`: an unloadable `m` fails, an
   * existing `mf` that does not parse fails, and otherwise the load
   * succeeds, with no metadata exactly when `mf` does not exist.
   */
  lemma LoadOutcomeOfGreatestCandidate<M, D>(dir: ModelDir<M, D>, key: string, m: string)
    requires m in dir.entries && IsCandidate(key, m)
    requires forall f :: f in dir.entries && IsCandidate(key, f) ==> LexLe(f, m)
    ensures var r := LoadLatestModel(dir, key);
      var mf := MetadataFileName(key, TimestampOf(m));
      && (m !in dir.payloads ==> r == Failure(ArtifactLoadFailed(m)))
      && (m in dir.payloads && mf in dir.metadataFiles && dir.metadataFiles[mf].None? ==>
            r == Failure(MetadataParseFailed(mf)))
      && (m in dir.payloads && mf !in dir.metadataFiles ==>
            r == Success(Loaded(dir.payloads[m], None, m)))
      && (m in dir.payloads && mf in dir.metadataFiles && dir.metadataFiles[mf].Some? ==>
            r == Success(Loaded(dir.payloads[m], dir.metadataFiles[mf], m)))
  {
    SelectedIsGreatestCandidate(key, dir.entries);
    var s := Selected(key, dir.entries).value;
    LexLeAntisymmetric(s, m);
  }

  /**
   * For an artifact named `key + "_model_" + ts + ".joblib"`, with `ts`
   * holding neither an underscore nor ".joblib", the name is a candidate,
   * the extracted timestamp is exactly `ts`, and the metadata name is
   * `key + "_metadata_" + ts + ".json"`.
   */
  lemma TimestampOfWellFormedName(key: string, ts: string)
    requires '_' !in ts && !Occurs(ts, ModelSuffix)
    ensures IsCandidate(key, ArtifactName(key, ts))
    ensures TimestampOf(ArtifactName(key, ts)) == ts
    ensures MetadataFileName(key, TimestampOf(ArtifactName(key, ts))) == key + "_metadata_" + ts + ".json"
  {
    var name := ArtifactName(key, ts);
    assert name[..|key + "_model"|] == key + "_model";
    assert name[|name| - |ModelSuffix|..] == ModelSuffix;
    assert name == (key + "_model") + ['_'] + (ts + ModelSuffix);
    LastSegmentAfterLastSeparator(key + "_model", ts + ModelSuffix, '_');
    assert ModelSuffix[1..] == "joblib";
    OccursOnlyAtEnd(ts, ModelSuffix);
    RemoveAllKeepsCleanPrefix(ts, ModelSuffix, []);
    assert ts + ModelSuffix + [] == ts + ModelSuffix;
  }

  // ---------------------------------------------------------------------------
  // Consequences of the naming scheme
  // ---------------------------------------------------------------------------

  /**
   * For fixed-width timestamps, artifact names are ordered exactly as their
   * timestamps are, so the greatest candidate carries the newest timestamp.
   */
  lemma ArtifactOrderIsTimestampOrder(key: string, ts1: string, ts2: string)
    requires |ts1| == |ts2|
    ensures LexLe(ArtifactName(key, ts1), ArtifactName(key, ts2)) <==> LexLe(ts1, ts2)
  {
    var p := key + "_model_";
    assert ArtifactName(key, ts1) == p + (ts1 + ModelSuffix);
    assert ArtifactName(key, ts2) == p + (ts2 + ModelSuffix);
    if LexLe(ts1, ts2) {
      LexLeCommonSuffix(ts1, ts2, ModelSuffix);
      LexLeCommonPrefix(p, ts1 + ModelSuffix, ts2 + ModelSuffix);
    } else {
      LexLeTotal(ts1, ts2);
      LexLeCommonSuffix(ts2, ts1, ModelSuffix);
      LexLeCommonPrefix(p, ts2 + ModelSuffix, ts1 + ModelSuffix);
      LexLeRefl(ts1);
      assert ts1 == ArtifactName(key, ts1)[|p|..|p| + |ts1|];
      assert ts2 == ArtifactName(key, ts2)[|p|..|p| + |ts2|];
      LexLeStrict(ArtifactName(key, ts1), ArtifactName(key, ts2));
    }
  }

  /**
   * The prefix test has no trailing underscore, so `key + "_model.joblib"`
   * is a candidate, and its timestamp is "model".
   */
  lemma PrefixWithoutUnderscore(key: string)
    ensures IsCandidate(key, key + "_model" + ModelSuffix)
    ensures TimestampOf(key + "_model" + ModelSuffix) == "model"
  {
    var name := key + "_model" + ModelSuffix;
    assert name[..|key + "_model"|] == key + "_model";
    assert name[|name| - |ModelSuffix|..] == ModelSuffix;
    assert name == key + ['_'] + ("model" + ModelSuffix);
    LastSegmentAfterLastSeparator(key, "model" + ModelSuffix, '_');
    AbsentFirstCharMeansAbsent("model", ModelSuffix);
    assert ModelSuffix[1..] == "joblib";
    OccursOnlyAtEnd("model", ModelSuffix);
    RemoveAllKeepsCleanPrefix("model", ModelSuffix, []);
    assert "model" + ModelSuffix + [] == "model" + ModelSuffix;
  }

  /** Every ".joblib" in the last segment is removed, not only the suffix: a doubled suffix leaves the bare timestamp. */
  lemma EveryJoblibRemoved(key: string, ts: string)
    requires '_' !in ts && !Occurs(ts, ModelSuffix)
    ensures TimestampOf(ArtifactName(key, ts) + ModelSuffix) == ts
  {
    var last := ts + ModelSuffix + ModelSuffix;
    assert ArtifactName(key, ts) + ModelSuffix == (key + "_model") + ['_'] + last;
    LastSegmentAfterLastSeparator(key + "_model", last, '_');
    assert ModelSuffix[1..] == "joblib";
    OccursOnlyAtEnd(ts, ModelSuffix);
    RemoveAllKeepsCleanPrefix(ts, ModelSuffix, ModelSuffix);
    RemoveAllKeepsCleanPrefix([], ModelSuffix, []);
    assert [] + ModelSuffix + [] == ModelSuffix;
  }
}
