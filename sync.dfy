/** One tick of the polling loop: the fetched track is compared with the last
    applied one and, when it differs, becomes the applied track and yields the
    file operations that mirror it on disk. */
module Sync {
  import opened Tracks
  import opened Template
  import opened Files

  /** The configuration this core reads: one output pattern, one track text
      file, and the final album-art file. */
  datatype Config = Config(outputPattern: string, trackFilePath: Path, albumArtFilePath: Path)

  /** The cover is downloaded next to the final file, under a `.tmp` suffix. */
  function AlbumArtTmpPath(cfg: Config): (r: Path)
    ensures |r| > |cfg.albumArtFilePath| && r[..|cfg.albumArtFilePath|] == cfg.albumArtFilePath
  {
    cfg.albumArtFilePath + ".tmp"
  }

  /** The operations for a newly applied track: write the rendered pattern
      to the track file when the track has text, else delete that file; then,
      independently, download a non-empty cover, else delete the temporary
      and then the final cover file. */
  function Plan(cfg: Config, t: Track): (r: seq<FileOp>)
    ensures |r| == (if t.cover != "" then 2 else 3)
    ensures IsTrackNonEmpty(t) ==> r[0] == Write(cfg.trackFilePath, Render(cfg.outputPattern, t))
    ensures !IsTrackNonEmpty(t) ==> r[0] == Delete(cfg.trackFilePath)
    ensures Write(cfg.trackFilePath, Render(cfg.outputPattern, t)) in r <==> IsTrackNonEmpty(t)
    ensures forall op :: op in r && op.Write? ==> op == Write(cfg.trackFilePath, Render(cfg.outputPattern, t))
    ensures (exists op :: op in r && op.Download?) <==> t.cover != ""
    ensures forall op :: op in r && op.Download? ==> op.url == t.cover
    ensures t.cover == "" ==> r[|r| - 2..] == [Delete(AlbumArtTmpPath(cfg)), Delete(cfg.albumArtFilePath)]
    ensures t.cover != "" ==> forall op :: op in r && op.Delete? ==> op == Delete(cfg.trackFilePath)
  {
    var text := if IsTrackNonEmpty(t) then [Write(cfg.trackFilePath, Render(cfg.outputPattern, t))]
                else [Delete(cfg.trackFilePath)];
    var cover := if t.cover != "" then [Download(t.cover)]
                 else [Delete(AlbumArtTmpPath(cfg)), Delete(cfg.albumArtFilePath)];
    PlanShape(cfg.trackFilePath, AlbumArtTmpPath(cfg), cfg.albumArtFilePath,
              IsTrackNonEmpty(t), Render(cfg.outputPattern, t), t.cover, text + cover);
    text + cover
  }

  /** The shape of a plan for any rendered text: one operation on the track
      file, then either the cover download or the two cover deletions. */
  lemma PlanShape(track: Path, tmp: Path, fin: Path, nonEmpty: bool, rendered: string, cover: string, r: seq<FileOp>)
    requires r == (if nonEmpty then [Write(track, rendered)] else [Delete(track)]) +
                  (if cover != "" then [Download(cover)] else [Delete(tmp), Delete(fin)])
    ensures |r| == (if cover != "" then 2 else 3)
    ensures nonEmpty ==> r[0] == Write(track, rendered)
    ensures !nonEmpty ==> r[0] == Delete(track)
    ensures Write(track, rendered) in r <==> nonEmpty
    ensures forall op :: op in r && op.Write? ==> op == Write(track, rendered)
    ensures (exists op :: op in r && op.Download?) <==> cover != ""
    ensures forall op :: op in r && op.Download? ==> op.url == cover
    ensures cover == "" ==> r[|r| - 2..] == [Delete(tmp), Delete(fin)]
    ensures cover != "" ==> forall op :: op in r && op.Delete? ==> op == Delete(track)
  {
    if cover != "" {
      assert r == [r[0], Download(cover)];
      assert r[1] in r;
    } else {
      assert r == [r[0], Delete(tmp), Delete(fin)];
    }
  }

  /** The track file and the two cover files are distinct paths. */
  predicate DistinctPaths(cfg: Config)
  {
    cfg.trackFilePath != cfg.albumArtFilePath && cfg.trackFilePath != AlbumArtTmpPath(cfg)
  }

  /** The track file ends with the rendered pattern for a track with text
      and is gone for a track without. */
  lemma PlanTrackFileOutcome(cfg: Config, t: Track, fs: FileSystem)
    requires DistinctPaths(cfg)
    ensures var out := Apply(fs, Plan(cfg, t));
      (IsTrackNonEmpty(t) ==> cfg.trackFilePath in out && out[cfg.trackFilePath] == Render(cfg.outputPattern, t)) &&
      (!IsTrackNonEmpty(t) ==> cfg.trackFilePath !in out)
  {
    var e := PlanDecisions(cfg, t);
    var text := if IsTrackNonEmpty(t) then Some(Render(cfg.outputPattern, t)) else None;
    assert cfg.trackFilePath in e && e[cfg.trackFilePath] == text;
    PlanApplied(cfg, t, fs);
    OverrideAt(fs, e, cfg.trackFilePath);
  }

  /** An empty cover leaves neither cover file behind; a non-empty cover
      leaves both as they were until the download, which is outside this
      model, replaces them. */
  lemma PlanCoverFilesOutcome(cfg: Config, t: Track, fs: FileSystem)
    requires DistinctPaths(cfg)
    ensures var out := Apply(fs, Plan(cfg, t));
      (t.cover == "" ==> AlbumArtTmpPath(cfg) !in out && cfg.albumArtFilePath !in out) &&
      (t.cover != "" ==> forall p :: p in {AlbumArtTmpPath(cfg), cfg.albumArtFilePath} ==>
         (p in out <==> p in fs) && (p in fs ==> out[p] == fs[p]))
  {
    var e := PlanDecisions(cfg, t);
    PlanApplied(cfg, t, fs);
    OverrideAt(fs, e, AlbumArtTmpPath(cfg));
    OverrideAt(fs, e, cfg.albumArtFilePath);
  }

  /** No file other than the track file and the two cover files is touched. */
  lemma PlanOtherFilesUntouched(cfg: Config, t: Track, fs: FileSystem, p: Path)
    requires p != cfg.trackFilePath && p != AlbumArtTmpPath(cfg) && p != cfg.albumArtFilePath
    ensures var out := Apply(fs, Plan(cfg, t));
      (p in out <==> p in fs) && (p in fs ==> out[p] == fs[p])
  {
    var e := PlanDecisions(cfg, t);
    PlanApplied(cfg, t, fs);
    OverrideAt(fs, e, p);
  }

  /** The decisions a plan makes, path by path. */
  function PlanDecisions(cfg: Config, t: Track): map<Path, Option<string>>
  {
    var text := if IsTrackNonEmpty(t) then Some(Render(cfg.outputPattern, t)) else None;
    if t.cover != "" then map[cfg.trackFilePath := text]
    else map[cfg.trackFilePath := text, AlbumArtTmpPath(cfg) := None, cfg.albumArtFilePath := None]
  }

  /** Applying the plan imposes its decisions. */
  lemma PlanApplied(cfg: Config, t: Track, fs: FileSystem)
    ensures Apply(fs, Plan(cfg, t)) == Override(fs, PlanDecisions(cfg, t))
  {
    PlanEffect(cfg, t);
  }

  lemma PlanEffect(cfg: Config, t: Track)
    ensures EffectOf(Plan(cfg, t)) == PlanDecisions(cfg, t)
  {
    var ops := Plan(cfg, t);
    var text := if IsTrackNonEmpty(t) then Some(Render(cfg.outputPattern, t)) else None;
    assert OpEffect(ops[0]) == map[cfg.trackFilePath := text];
    TwoBranchEffect(ops, cfg.trackFilePath, AlbumArtTmpPath(cfg), cfg.albumArtFilePath, text, t.cover);
  }

  /** The effect of a text operation followed by the cover branch. */
  lemma TwoBranchEffect(ops: seq<FileOp>, track: Path, tmp: Path, fin: Path, text: Option<string>, cover: string)
    requires |ops| >= 1 && OpEffect(ops[0]) == map[track := text]
    requires ops[1..] == if cover != "" then [Download(cover)] else [Delete(tmp), Delete(fin)]
    ensures EffectOf(ops) == if cover != "" then map[track := text] else map[track := text, tmp := None, fin := None]
  {
    EffectOfCons(ops);
    if cover != "" {
      EffectOfDownload(ops[1..], cover);
      MapUnionEmpty(map[track := text]);
    } else {
      EffectOfDeletes(ops[1..], tmp, fin);
      MapUnionDeletes(track, text, tmp, fin);
    }
  }

  lemma EffectOfCons(ops: seq<FileOp>)
    requires |ops| >= 1
    ensures EffectOf(ops) == OpEffect(ops[0]) + EffectOf(ops[1..])
  {
  }

  lemma MapUnionEmpty(m: map<Path, Option<string>>)
    ensures m + map[] == m
  {
  }

  lemma MapUnionDeletes(track: Path, text: Option<string>, tmp: Path, fin: Path)
    ensures map[track := text] + map[tmp := None, fin := None] == map[track := text, tmp := None, fin := None]
  {
  }

  lemma EffectOfDownload(ops: seq<FileOp>, url: string)
    requires ops == [Download(url)]
    ensures EffectOf(ops) == map[]
  {
    assert ops[1..] == [];
  }

  lemma EffectOfDeletes(ops: seq<FileOp>, p: Path, q: Path)
    requires ops == [Delete(p), Delete(q)]
    ensures EffectOf(ops) == map[p := None, q := None]
  {
    assert ops[1..] == [Delete(q)] && ops[1..][1..] == [];
    assert EffectOf(ops[1..]) == map[q := None];
  }

  /** Re-applying a plan leaves the files as the first application did. */
  lemma PlanIdempotent(cfg: Config, t: Track, fs: FileSystem)
    ensures Apply(Apply(fs, Plan(cfg, t)), Plan(cfg, t)) == Apply(fs, Plan(cfg, t))
  {
    ApplyIdempotent(fs, Plan(cfg, t));
  }

  /** One tick on the applied track `stored`, given the fetch result (`None`
      when the request or the destructuring of its body failed): the new
      applied track and the operations issued. */
  function Step(cfg: Config, stored: Option<Track>, fetched: Option<Track>): (r: (Option<Track>, seq<FileOp>))
    ensures fetched == None ==> r == (stored, [])
    ensures fetched != None ==> r.0 == fetched
    ensures r.1 != [] <==> fetched != None && fetched != stored
    ensures r.1 != [] ==> r.1 == Plan(cfg, fetched.value)
  {
    match fetched
    case None => (stored, [])
    case Some(t) => if HasTrackChanged(stored, t) then (Some(t), Plan(cfg, t)) else (stored, [])
  }

  /** Fetching the track just applied issues nothing and keeps the state. */
  lemma StepRepeatIsQuiet(cfg: Config, stored: Option<Track>, t: Track)
    ensures var s1 := Step(cfg, stored, Some(t)).0; Step(cfg, s1, Some(t)) == (s1, [])
  {
  }

  /** Successive ticks: the final applied track and all operations, in
      order. The applied track ends as the last one fetched successfully, so
      failed fetches never disturb it. */
  function Run(cfg: Config, stored: Option<Track>, fetches: seq<Option<Track>>): (r: (Option<Track>, seq<FileOp>))
    ensures r.0 == LastFetched(stored, fetches)
    decreases |fetches|
  {
    if fetches == [] then (stored, [])
    else
      var (s1, ops1) := Step(cfg, stored, fetches[0]);
      var (s2, ops2) := Run(cfg, s1, fetches[1..]);
      LastFetchedCons(stored, fetches[0], fetches[1..]);
      assert [fetches[0]] + fetches[1..] == fetches;
      (s2, ops1 + ops2)
  }

  /** The last successful fetch, or `stored` when none succeeded. */
  function LastFetched(stored: Option<Track>, fetches: seq<Option<Track>>): Option<Track>
    decreases |fetches|
  {
    if fetches == [] then stored
    else if fetches[|fetches| - 1] != None then fetches[|fetches| - 1]
    else LastFetched(stored, fetches[..|fetches| - 1])
  }

  lemma {:induction false} LastFetchedCons(stored: Option<Track>, f: Option<Track>, rest: seq<Option<Track>>)
    ensures LastFetched(stored, [f] + rest) == LastFetched(if f == None then stored else f, rest)
    decreases |rest|
  {
    if rest != [] {
      var n := |rest|;
      assert ([f] + rest)[..n] == [f] + rest[..n - 1];
      LastFetchedCons(stored, f, rest[..n - 1]);
    }
  }

  /** `n` fetches of one track in a row. */
  function Repeat(t: Track, n: nat): (r: seq<Option<Track>>)
    ensures |r| == n && forall k :: 0 <= k < n ==> r[k] == Some(t)
  {
    if n == 0 then [] else [Some(t)] + Repeat(t, n - 1)
  }

  /** While the player keeps reporting the same track, however many ticks
      pass, the files are synchronised once, at the first of them. */
  lemma {:induction false} RunSameTrackSyncsOnce(cfg: Config, stored: Option<Track>, t: Track, n: nat)
    requires n >= 1
    ensures Run(cfg, stored, Repeat(t, n)) == (Some(t), Step(cfg, stored, Some(t)).1)
  {
    var fetches := Repeat(t, n);
    var first := Step(cfg, stored, Some(t));
    assert first.0 == Some(t);
    RunAppliedIsQuiet(cfg, t, n - 1);
    assert fetches[1..] == Repeat(t, n - 1);
    var rest := Run(cfg, Some(t), fetches[1..]);
    assert rest == (Some(t), []);
    assert Run(cfg, stored, fetches) == (rest.0, first.1 + rest.1);
    assert first.1 + rest.1 == first.1;
  }

  lemma {:induction false} RunAppliedIsQuiet(cfg: Config, t: Track, n: nat)
    ensures Run(cfg, Some(t), Repeat(t, n)) == (Some(t), [])
    decreases n
  {
    if n > 0 {
      var fetches := Repeat(t, n);
      assert Step(cfg, Some(t), Some(t)) == (Some(t), []);
      RunAppliedIsQuiet(cfg, t, n - 1);
      assert fetches[1..] == Repeat(t, n - 1);
      var rest := Run(cfg, Some(t), fetches[1..]);
      assert rest == (Some(t), []);
      assert Run(cfg, Some(t), fetches) == (rest.0, [] + rest.1);
      assert [] + rest.1 == [];
    }
  }

  /** The polling loop's single piece of state, the last applied track. */
  class Synchroniser {
    const config: Config
    var current: Option<Track>

    /** Nothing applied yet: every stored field is absent. */
    constructor (config: Config)
      ensures this.config == config && current == None
    {
      this.config := config;
      current := None;
    }

    /** One tick with the fetch result: applies a changed track and returns
        the file operations to issue; a failed fetch or an unchanged track
        issues nothing. */
    method Tick(fetched: Option<Track>) returns (ops: seq<FileOp>)
      modifies this
      ensures (current, ops) == Step(config, old(current), fetched)
      ensures fetched != None ==> current == fetched
      ensures fetched == None ==> current == old(current) && ops == []
    {
      ops := [];
      if fetched.Some? {
        var t := fetched.value;
        if HasTrackChanged(current, t) {
          current := Some(Track(t.author, t.title, t.album, t.cover));
          ops := Plan(config, current.value);
        }
      }
    }
  }

  /** A session with a fresh synchroniser: a track with a cover is written
      and its cover downloaded; the same track fetched again issues nothing;
      a failed fetch issues nothing; then the blank track removes the track
      file and both cover files. */
  method Session(cfg: Config, t: Track) returns (first: seq<FileOp>, again: seq<FileOp>, failed: seq<FileOp>, blank: seq<FileOp>)
    requires IsTrackNonEmpty(t) && t.cover != ""
    ensures first == [Write(cfg.trackFilePath, Render(cfg.outputPattern, t)), Download(t.cover)]
    ensures again == [] && failed == []
    ensures blank == [Delete(cfg.trackFilePath), Delete(AlbumArtTmpPath(cfg)), Delete(cfg.albumArtFilePath)]
  {
    var sync := new Synchroniser(cfg);
    first := sync.Tick(Some(t));
    again := sync.Tick(Some(t));
    failed := sync.Tick(None);
    blank := sync.Tick(Some(Blank));
  }

  /** The very first tick always applies the fetched track, even the blank
      one, which therefore deletes the track file and both cover files. */
  lemma FirstTickAlwaysApplies(cfg: Config, t: Track)
    ensures Step(cfg, None, Some(t)) == (Some(t), Plan(cfg, t))
    ensures Step(cfg, None, Some(Blank)).1 ==
      [Delete(cfg.trackFilePath), Delete(AlbumArtTmpPath(cfg)), Delete(cfg.albumArtFilePath)]
  {
  }
}
