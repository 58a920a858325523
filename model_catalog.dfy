/**
 The model-catalog updater: how `fetch_api_models` turns the two listing
 responses into the catalog `{image, video, text}`, how a bucket is
 rendered as a markdown bullet list, and the guard of the script's entry
 point that writes the files only when the fetch succeeded.
 */
module ModelCatalog {
  import opened Wrappers
  import opened PyStr

  /**
   One record of a listing response. `name` is `None` when the record has
   no `name` key; `paidOnly` is the truthiness of `paid_only` (false when
   missing); `outputModalities` is `None` when the key is missing.
   */
  datatype Record = Record(name: Option<string>, paidOnly: bool, outputModalities: Option<seq<string>>)

  /** The catalog the updater writes: one ordered list of display names per key. */
  datatype Catalog = Catalog(image: seq<string>, video: seq<string>, text: seq<string>)

  datatype Bucket = Image | Video | Text

  /** The premium marker: a space and U+1F48E GEM STONE. */
  const PremiumSuffix: string := " \U{1F48E}"

  /** The text models keep every record that has the `name` key, even an empty one. */
  predicate HasNameKey(m: Record)
  {
    m.name.Some?
  }

  /** The image/video models keep a record only when `m.get("name")` is truthy. */
  predicate HasTruthyName(m: Record)
  {
    m.name.Some? && m.name.value != ""
  }

  /** `m.get("output_modalities", [])`. */
  function OutModalities(m: Record): seq<string>
  {
    if m.outputModalities.Some? then m.outputModalities.value else []
  }

  predicate IsVideo(m: Record)
  {
    "video" in OutModalities(m)
  }

  /** Whether the record contributes an entry to bucket `b`. */
  predicate InBucket(m: Record, b: Bucket)
  {
    match b
    case Text => HasNameKey(m)
    case Video => HasTruthyName(m) && IsVideo(m)
    case Image => HasTruthyName(m) && !IsVideo(m)
  }

  /** The display name: the name, followed by the premium marker for a paid-only model. */
  function DisplayName(name: string, paidOnly: bool): (d: string)
    ensures |d| == |name| + (if paidOnly then |PremiumSuffix| else 0)
    ensures d[..|name|] == name
    ensures d[|name|..] == (if paidOnly then PremiumSuffix else "")
  {
    if paidOnly then name + PremiumSuffix else name
  }

  function Display(m: Record): string
    requires HasNameKey(m)
  {
    DisplayName(m.name.value, m.paidOnly)
  }

  /** The entries of bucket `b`: the display name of each record in it, in input order. */
  function Entries(rs: seq<Record>, b: Bucket): seq<string>
  {
    if rs == [] then []
    else
      var m := rs[|rs| - 1];
      Entries(rs[..|rs| - 1], b) + (if InBucket(m, b) then [Display(m)] else [])
  }

  /** The positions of the records that bucket `b` keeps, in input order. */
  function Kept(rs: seq<Record>, b: Bucket): seq<nat>
  {
    if rs == [] then []
    else
      var n := |rs| - 1;
      Kept(rs[..n], b) + (if InBucket(rs[n], b) then [n] else [])
  }

  /**
   The kept positions are increasing, they are exactly the positions of the
   records in the bucket, and the bucket's k-th entry is the display name of
   the record at the k-th of them: each kept record gives one entry, in
   input order, with no reordering and no de-duplication.
   */
  lemma {:induction false} KeptSpec(rs: seq<Record>, b: Bucket)
    ensures |Kept(rs, b)| == |Entries(rs, b)|
    ensures forall k | 0 <= k < |Kept(rs, b)| ::
      Kept(rs, b)[k] < |rs| && InBucket(rs[Kept(rs, b)[k]], b) && Entries(rs, b)[k] == Display(rs[Kept(rs, b)[k]])
    ensures forall k, l | 0 <= k < l < |Kept(rs, b)| :: Kept(rs, b)[k] < Kept(rs, b)[l]
    ensures forall i | 0 <= i < |rs| && InBucket(rs[i], b) :: i in Kept(rs, b)
  {
    if rs != [] {
      var n := |rs| - 1;
      var init := rs[..n];
      KeptSpec(init, b);
      var before, idx := Kept(init, b), Kept(rs, b);
      var eb, e := Entries(init, b), Entries(rs, b);
      assert |idx| == |e|;
      forall k | 0 <= k < |idx|
        ensures idx[k] < |rs| && InBucket(rs[idx[k]], b) && e[k] == Display(rs[idx[k]])
      {
        if k < |before| {
          assert idx[k] == before[k] && e[k] == eb[k];
          assert rs[before[k]] == init[before[k]];
        }
      }
      forall i | 0 <= i < |rs| && InBucket(rs[i], b)
        ensures i in idx
      {
        if i < n {
          assert rs[i] == init[i];
          assert i in before;
        } else {
          assert idx[|idx| - 1] == n;
        }
      }
    }
  }

  /** The number of records whose `name` is truthy. */
  function NamedCount(rs: seq<Record>): nat
  {
    if rs == [] then 0 else NamedCount(rs[..|rs| - 1]) + (if HasTruthyName(rs[|rs| - 1]) then 1 else 0)
  }

  /**
   Image and video split the records with a truthy name: each such record
   lands in exactly one of the two, the others in neither, so the two
   buckets together hold as many entries as there are such records.
   */
  lemma {:induction false} ImageVideoPartition(rs: seq<Record>)
    ensures |Entries(rs, Image)| + |Entries(rs, Video)| == NamedCount(rs)
    ensures forall i | 0 <= i < |rs| ::
      (HasTruthyName(rs[i]) <==> i in Kept(rs, Image) || i in Kept(rs, Video))
      && !(i in Kept(rs, Image) && i in Kept(rs, Video))
  {
    if rs != [] {
      ImageVideoPartition(rs[..|rs| - 1]);
    }
    KeptSpec(rs, Image);
    KeptSpec(rs, Video);
    var image, video := Kept(rs, Image), Kept(rs, Video);
    forall i | 0 <= i < |rs|
      ensures (HasTruthyName(rs[i]) <==> i in image || i in video) && !(i in image && i in video)
    {
      if i in image {
        var k :| 0 <= k < |image| && image[k] == i;
      }
      if i in video {
        var k :| 0 <= k < |video| && video[k] == i;
      }
    }
  }

  /**
   The two keep rules differ: a record whose name is the empty string, at
   any position of any listing, is kept as a text model but is neither an
   image nor a video model.
   */
  lemma EmptyNameIsTextOnly(rs: seq<Record>, i: nat)
    requires i < |rs| && rs[i].name == Some("")
    ensures i in Kept(rs, Text)
    ensures i !in Kept(rs, Image) && i !in Kept(rs, Video)
  {
    KeptSpec(rs, Text);
    KeptSpec(rs, Image);
    KeptSpec(rs, Video);
    var image, video := Kept(rs, Image), Kept(rs, Video);
    assert forall k | 0 <= k < |image| :: image[k] != i;
    assert forall k | 0 <= k < |video| :: video[k] != i;
  }

  /** The catalog `fetch_api_models` returns when both listing calls succeed, otherwise `None`. */
  function Classify(textResp: Option<seq<Record>>, imageVideoResp: Option<seq<Record>>): Option<Catalog>
  {
    if textResp.Some? && imageVideoResp.Some? then
      Some(Catalog(Entries(imageVideoResp.value, Image), Entries(imageVideoResp.value, Video),
                   Entries(textResp.value, Text)))
    else None
  }

  /**
   `fetch_api_models` after the HTTP calls: each response is the parsed
   JSON list, or `None` when the call raised.
   */
  method FetchApiModels(textResp: Option<seq<Record>>, imageVideoResp: Option<seq<Record>>)
    returns (live: Option<Catalog>)
    ensures live.None? <==> textResp.None? || imageVideoResp.None?
    ensures live == Classify(textResp, imageVideoResp)
  {
    if textResp.None? {
      return None;
    }
    var textModels := Entries(textResp.value, Text);
    if imageVideoResp.None? {
      return None;
    }
    var rs := imageVideoResp.value;
    var imageModels: seq<string> := [];
    var videoModels: seq<string> := [];
    for i := 0 to |rs|
      invariant imageModels == Entries(rs[..i], Image)
      invariant videoModels == Entries(rs[..i], Video)
    {
      assert rs[..i + 1][..i] == rs[..i];
      var m := rs[i];
      var modelId := m.name;
      if !(modelId.Some? && modelId.value != "") {
        continue;
      }
      var displayName := DisplayName(modelId.value, m.paidOnly);
      var outModalities := if m.outputModalities.Some? then m.outputModalities.value else [];
      if "video" in outModalities {
        videoModels := videoModels + [displayName];
      } else {
        imageModels := imageModels + [displayName];
      }
    }
    assert rs[..|rs|] == rs;
    return Some(Catalog(imageModels, videoModels, textModels));
  }

  // ---------------------------------------------------------------------
  // The README bullet list

  function Bullet(m: string): string
  {
    "  * `" + m + "`"
  }

  function BulletLines(models: seq<string>): seq<string>
  {
    if models == [] then [] else [Bullet(models[0])] + BulletLines(models[1..])
  }

  /** `formatted_list`: one bullet line per model, joined by newlines. */
  function FormatList(models: seq<string>): string
  {
    Join(BulletLines(models), "\n")
  }

  /** Reads one bullet line back to its model name. */
  function Unbullet(line: string): Option<string>
  {
    if |line| >= 6 && line[..5] == "  * `" && line[|line| - 1] == '`' then Some(line[5..|line| - 1])
    else None
  }

  function UnbulletAll(lines: seq<string>): Option<seq<string>>
  {
    if lines == [] then Some([])
    else match (Unbullet(lines[0]), UnbulletAll(lines[1..]))
      case (Some(m), Some(ms)) => Some([m] + ms)
      case _ => None
  }

  /** Reads a rendered list back: one model per line. */
  function ParseList(s: string): Option<seq<string>>
  {
    if s == "" then Some([]) else UnbulletAll(Split(s, '\n'))
  }

  /**
   The rendered list is empty exactly for an empty list; otherwise it starts
   with the first bullet and ends with the closing backtick of the last, so
   there is no trailing newline.
   */
  lemma FormatListShape(models: seq<string>)
    ensures FormatList(models) == "" <==> models == []
    ensures models != [] ==>
      var r := FormatList(models);
      |r| >= 6 && r[..5] == "  * `" && r[|r| - 1] == '`'
  {
    BulletLinesSpec(models);
    if models != [] {
      var lines := BulletLines(models);
      JoinEndsWithLast(lines, "\n");
      var r := FormatList(models);
      var last := lines[|lines| - 1];
      assert r[|r| - |last|..][|last| - 1] == r[|r| - 1];
      assert |lines| == 1 || r == lines[0] + "\n" + Join(lines[1..], "\n");
      assert r[..5] == lines[0][..5];
    }
  }

  lemma {:induction false} BulletLinesSpec(models: seq<string>)
    ensures |BulletLines(models)| == |models|
    ensures forall i | 0 <= i < |models| :: BulletLines(models)[i] == Bullet(models[i])
    ensures UnbulletAll(BulletLines(models)) == Some(models)
  {
    if models != [] {
      BulletLinesSpec(models[1..]);
      var b := Bullet(models[0]);
      assert b[5..|b| - 1] == models[0];
      assert [models[0]] + models[1..] == models;
    }
  }

  /**
   When no model name contains a newline, the rendered list reads back as
   the same models in the same order: one line per model and nothing else.
   */
  lemma FormatListRoundTrip(models: seq<string>)
    requires forall i | 0 <= i < |models| :: '\n' !in models[i]
    ensures ParseList(FormatList(models)) == Some(models)
  {
    BulletLinesSpec(models);
    FormatListShape(models);
    if models != [] {
      var lines := BulletLines(models);
      forall i | 0 <= i < |lines| ensures '\n' !in lines[i] {
        assert lines[i] == "  * `" + models[i] + "`";
      }
      SplitJoin(lines, '\n');
    }
  }

  // ---------------------------------------------------------------------
  // The entry point

  /** What one run of the script does to the outside world, in order. */
  datatype Effect =
    | WriteJson(catalog: Catalog)
    | WriteReadme(sections: seq<(string, string)>)
    | GitSync

  /** The README sections rewritten, each with the rendered list of its bucket. */
  function ReadmeSections(c: Catalog): seq<(string, string)>
  {
    [("Image Gen", FormatList(c.image)), ("Video Gen", FormatList(c.video)), ("Text Gen", FormatList(c.text))]
  }

  /**
   The `__main__` block: fetch; only on success write models.json, rewrite
   README.md when it exists, and synchronise the repositories.
   */
  method RunUpdater(textResp: Option<seq<Record>>, imageVideoResp: Option<seq<Record>>, readmeExists: bool)
    returns (effects: seq<Effect>)
    ensures textResp.None? || imageVideoResp.None? ==> effects == []
    ensures textResp.Some? && imageVideoResp.Some? ==>
      var c := Classify(textResp, imageVideoResp).value;
      effects == [WriteJson(c)] + (if readmeExists then [WriteReadme(ReadmeSections(c))] else []) + [GitSync]
  {
    effects := [];
    var liveModels := FetchApiModels(textResp, imageVideoResp);
    if liveModels.Some? {
      effects := effects + [WriteJson(liveModels.value)];
      if readmeExists {
        effects := effects + [WriteReadme(ReadmeSections(liveModels.value))];
      }
      effects := effects + [GitSync];
    }
  }
}
