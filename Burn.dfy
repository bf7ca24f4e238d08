/** The `/burn` render job: request validation and defaults, the per-job
    workspace under `/tmp`, the choice of background clip and its start
    offset, the two subtitle edits, and the final encode. Everything the
    job asks of the outside world (the uuid, file writes, the directory
    listing, `fs.existsSync`, `ffprobe`, `Math.random`, ffmpeg and `sed`)
    is a field of `Env`. */
module Burn {
  import opened Strings
  import opened Js
  import opened Ass

  const VideosDir := "/mnt/videos"
  const DefaultPrefix := "default_"
  const DefaultFontsize := 30
  const DefaultOutline := 2

  /** `parseFloat` of the trimmed `ffprobe` output: a number of seconds, or
      NaN when the output does not start with a number. */
  datatype JsNumber = Finite(x: real) | NaN

  /** The fields the handler destructures from `req.body`. */
  datatype Request = Request(
    video: JsValue,
    audio: JsValue,
    subtitles: JsValue,
    fontsize: JsValue,
    outline: JsValue)

  /** What the outside world answers during one job. `writesOk`: both
      `writeFileSync` calls succeed. `listing`: `readdirSync("/mnt/videos")`,
      `None` when it throws. `existing`: the paths `existsSync` accepts.
      `probe(path)`: `getDuration(path)`, `None` when `ffprobe` fails.
      `r1`, `r2`: the two `Math.random()` draws. `converted`: the lines of
      the ASS file ffmpeg writes from the SRT, `None` when it fails. The
      last three flags: the style `sed`, the WrapStyle command and the
      encode exit successfully. */
  datatype Env = Env(
    uuid: string,
    writesOk: bool,
    listing: Option<seq<string>>,
    existing: set<string>,
    probe: string -> Option<JsNumber>,
    r1: real,
    r2: real,
    converted: Option<seq<string>>,
    styleSedOk: bool,
    wrapSedOk: bool,
    encodeOk: bool)
  {
    /** `Math.random()` returns a number in [0, 1). */
    predicate Valid() {
      0.0 <= r1 < 1.0 && 0.0 <= r2 < 1.0
    }
  }

  /** The job's directory: not made yet, on disk, or removed by `cleanup`. */
  datatype Workspace = NotCreated | Present(path: string) | Removed(path: string)

  /** The ffmpeg encode the job runs: seek offset, background clip, audio,
      the lines of the patched subtitle file, and the output file. */
  datatype EncodeJob = EncodeJob(
    offset: real,
    videoPath: string,
    audioPath: string,
    subtitles: seq<string>,
    outputPath: string)

  /** Status code sent, the workspace once the handler has returned, whether
      removal is registered on stream close, and the encode that ran. */
  datatype Outcome = Outcome(
    status: int,
    workspace: Workspace,
    cleanupOnClose: bool,
    encode: Option<EncodeJob>)

  /** A background clip: its file name, its path and where to start. */
  datatype Clip = Clip(video: string, path: string, offset: real)

  datatype Resolution = Chosen(clip: Clip) | NotFound | Failed

  function WorkspacePath(uuid: string): string {
    "/tmp/" + uuid
  }

  function AudioPath(tmp: string): string {
    tmp + "/audio.wav"
  }

  function OutputPath(tmp: string): string {
    tmp + "/output.mp4"
  }

  /** `path.join("/mnt/videos", name)`. */
  function VideoPath(name: string): string {
    VideosDir + "/" + name
  }

  /** `${fontsize}` after the destructuring default, which applies only when
      the field is `undefined`. */
  function FontsizeText(req: Request): string {
    JsText(if req.fontsize.Undefined? then Num(DefaultFontsize) else req.fontsize)
  }

  function OutlineText(req: Request): string {
    JsText(if req.outline.Undefined? then Num(DefaultOutline) else req.outline)
  }

  /** An absent `fontsize` or `outline` is written as 30 or 2; an explicit
      `null` is not absent and is written as `null`; a string is written as
      it is, unchecked. */
  lemma StyleParameters(req: Request)
    ensures req.fontsize == Undefined ==> FontsizeText(req) == "30"
    ensures req.outline == Undefined ==> OutlineText(req) == "2"
    ensures req.fontsize == Null ==> FontsizeText(req) == "null"
    ensures req.outline == Null ==> OutlineText(req) == "null"
    ensures req.fontsize.Str? ==> FontsizeText(req) == req.fontsize.s
    ensures req.outline.Str? ==> OutlineText(req) == req.outline.s
  {
    assert NatText(3) == "3";
    assert NatText(30) == NatText(3) + [Digit(0)];
  }

  /** The two uploads can be written: `Buffer.from(audio, "base64")` throws
      for a number or a boolean, and `writeFileSync` throws for subtitles
      that are not a string. An array or object `audio` is left to
      `Env.writesOk`. */
  predicate Uploadable(req: Request) {
    (req.audio.Str? || req.audio.Composite?) && req.subtitles.Str?
  }

  /** The pool: the listed names that begin with `default_`, in listing
      order. */
  function DefaultVideos(names: seq<string>): (r: seq<string>)
    ensures forall f :: f in r <==> f in names && StartsWith(f, DefaultPrefix)
    ensures |r| <= |names|
  {
    if names == [] then []
    else
      var rest := DefaultVideos(names[1..]);
      assert forall f :: f in names <==> f == names[0] || f in names[1..];
      if StartsWith(names[0], DefaultPrefix) then [names[0]] + rest else rest
  }

  /** `Math.floor(r * n)`. */
  function PickIndex(r: real, n: nat): int {
    Scaled(r, n as real).Floor
  }

  /** With `r` in [0, 1) and a non-empty list, the index is in range. */
  lemma PickIndexInRange(r: real, n: nat)
    requires 0.0 <= r < 1.0 && n > 0
    ensures 0 <= PickIndex(r, n) < n
  {
    ScaleBelow(r, n as real);
  }

  /** The product of a random draw and an amount. */
  function Scaled(r: real, d: real): real {
    r * d
  }

  /** A fraction in [0, 1) of a positive amount is below the amount. */
  lemma ScaleBelow(r: real, d: real)
    requires 0.0 <= r < 1.0 && d > 0.0
    ensures 0.0 <= Scaled(r, d) < d
  {
    assert d - r * d == (1.0 - r) * d;
  }

  /** `Math.max(V - A - 1, 0)` for finite durations. */
  function Delta(v: real, a: real): real {
    if v - a - 1.0 > 0.0 then v - a - 1.0 else 0.0
  }

  /** `delta > 0 ? Math.random() * delta : 0`, where a NaN duration makes
      `delta` NaN and `NaN > 0` is false. */
  function StartOffset(videoDuration: JsNumber, audioDuration: JsNumber, r: real): real {
    if videoDuration.NaN? || audioDuration.NaN? then 0.0
    else if Delta(videoDuration.x, audioDuration.x) > 0.0 then Scaled(r, Delta(videoDuration.x, audioDuration.x))
    else 0.0
  }

  /** The offset lies in [0, delta), is 0 when the clip is at most one
      second longer than the audio, and is 0 when either probe gave NaN. */
  lemma StartOffsetBounds(videoDuration: JsNumber, audioDuration: JsNumber, r: real)
    requires 0.0 <= r < 1.0
    ensures 0.0 <= StartOffset(videoDuration, audioDuration, r)
    ensures videoDuration.NaN? || audioDuration.NaN? ==> StartOffset(videoDuration, audioDuration, r) == 0.0
    ensures videoDuration.Finite? && audioDuration.Finite? ==>
      var delta := videoDuration.x - audioDuration.x - 1.0;
      && (delta <= 0.0 ==> StartOffset(videoDuration, audioDuration, r) == 0.0)
      && (delta > 0.0 ==> StartOffset(videoDuration, audioDuration, r) < delta)
  {
    if videoDuration.Finite? && audioDuration.Finite? && Delta(videoDuration.x, audioDuration.x) > 0.0 {
      ScaleBelow(r, Delta(videoDuration.x, audioDuration.x));
    }
  }

  /** A 40-second clip under 10 seconds of audio starts somewhere in [0, 29). */
  lemma StartOffsetExample(r: real)
    requires 0.0 <= r < 1.0
    ensures 0.0 <= StartOffset(Finite(40.0), Finite(10.0), r) < 29.0
  {
    StartOffsetBounds(Finite(40.0), Finite(10.0), r);
  }

  /** The clip-selection part of the handler: pick the clip and its offset. A falsy
      `video` draws among the `default_` files and probes both durations; a
      non-string one makes `path.join` throw; a string names a file that
      must exist. */
  function Resolve(video: JsValue, tmp: string, env: Env): Resolution
    requires env.Valid()
  {
    if !Truthy(video) then
      match env.listing
      case None => Failed
      case Some(names) =>
        var defaults := DefaultVideos(names);
        if |defaults| == 0 then Failed
        else
          PickIndexInRange(env.r1, |defaults|);
          var name := defaults[PickIndex(env.r1, |defaults|)];
          var path := VideoPath(name);
          match (env.probe(path), env.probe(AudioPath(tmp)))
          case (Some(v), Some(a)) => Chosen(Clip(name, path, StartOffset(v, a, env.r2)))
          case _ => Failed
    else if !video.Str? then Failed
    else if VideoPath(video.s) in env.existing then Chosen(Clip(video.s, VideoPath(video.s), 0.0))
    else NotFound
  }

  /** An explicit video is looked up and nothing else: the listing, the
      probe and the random draws play no part. A string naming an existing
      file is chosen with offset 0, one naming a missing file is not found,
      and any other value fails. */
  lemma ExplicitVideo(video: JsValue, tmp: string, env: Env, other: Env)
    requires env.Valid() && other.Valid()
    requires Truthy(video) && other.existing == env.existing
    ensures Resolve(video, tmp, env) == Resolve(video, tmp, other)
    ensures Resolve(video, tmp, env).NotFound? <==> video.Str? && VideoPath(video.s) !in env.existing
    ensures Resolve(video, tmp, env).Chosen? ==>
      Resolve(video, tmp, env).clip == Clip(video.s, VideoPath(video.s), 0.0)
    ensures video.Str? && VideoPath(video.s) in env.existing ==>
      Resolve(video, tmp, env) == Chosen(Clip(video.s, VideoPath(video.s), 0.0))
    ensures !video.Str? ==> Resolve(video, tmp, env).Failed?
  {
  }

  /** A drawn clip is the `default_` file at the drawn index, in
      `/mnt/videos`; it is chosen exactly when both durations could be
      probed, and its offset is the start-offset rule applied to them; with
      no such file, or no listing, the job fails. */
  lemma RandomVideo(video: JsValue, tmp: string, env: Env)
    requires env.Valid() && !Truthy(video)
    ensures Resolve(video, tmp, env).NotFound? == false
    ensures env.listing.None? ==> Resolve(video, tmp, env).Failed?
    ensures env.listing.Some? && (forall f :: f in env.listing.value ==> !StartsWith(f, DefaultPrefix)) ==>
      Resolve(video, tmp, env).Failed?
    ensures env.listing.Some? && |DefaultVideos(env.listing.value)| > 0 ==>
      var defaults := DefaultVideos(env.listing.value);
      var i := PickIndex(env.r1, |defaults|);
      && 0 <= i < |defaults|
      && (Resolve(video, tmp, env).Chosen? <==>
            env.probe(VideoPath(defaults[i])).Some? && env.probe(AudioPath(tmp)).Some?)
    ensures Resolve(video, tmp, env).Chosen? ==>
      var c := Resolve(video, tmp, env).clip;
      && env.listing.Some? && c.video in env.listing.value
      && StartsWith(c.video, DefaultPrefix)
      && 0 <= PickIndex(env.r1, |DefaultVideos(env.listing.value)|) < |DefaultVideos(env.listing.value)|
      && c.video == DefaultVideos(env.listing.value)[PickIndex(env.r1, |DefaultVideos(env.listing.value)|)]
      && c.path == VideoPath(c.video)
      && env.probe(c.path).Some? && env.probe(AudioPath(tmp)).Some?
      && c.offset == StartOffset(env.probe(c.path).value, env.probe(AudioPath(tmp)).value, env.r2)
      && 0.0 <= c.offset
  {
    if env.listing.Some? {
      var defaults := DefaultVideos(env.listing.value);
      if |defaults| > 0 {
        PickIndexInRange(env.r1, |defaults|);
        var name := defaults[PickIndex(env.r1, |defaults|)];
        assert name in defaults;
        match (env.probe(VideoPath(name)), env.probe(AudioPath(tmp)))
        case (Some(v), Some(a)) => StartOffsetBounds(v, a, env.r2);
        case _ =>
      } else if env.listing.value != [] {
        assert env.listing.value[0] !in defaults;
      }
    }
  }

  /** The result of the catch block: `cleanup(tmp)` and a 500. */
  function Failure(tmp: string): Outcome {
    Outcome(500, Removed(tmp), false, None)
  }

  /** The whole handler, from request to the state it leaves when it
      returns. */
  function Burn(req: Request, env: Env): Outcome
    requires env.Valid()
  {
    if !Truthy(req.audio) || !Truthy(req.subtitles) then Outcome(400, NotCreated, false, None)
    else
      var tmp := WorkspacePath(env.uuid);
      if !Uploadable(req) || !env.writesOk then Failure(tmp)
      else
        match Resolve(req.video, tmp, env)
        case Failed => Failure(tmp)
        case NotFound => Outcome(404, Present(tmp), false, None)
        case Chosen(clip) =>
          if env.converted.None? || !env.styleSedOk || !env.wrapSedOk || !env.encodeOk then Failure(tmp)
          else
            var subtitles := WrapPatched(StyleRewrite(env.converted.value, FontsizeText(req), OutlineText(req)));
            Outcome(200, Present(tmp), true,
                    Some(EncodeJob(clip.offset, clip.path, AudioPath(tmp), subtitles, OutputPath(tmp))))
  }

  /** The four responses and the workspace each leaves: a 400 comes before
      any directory exists; otherwise the one directory is `/tmp/<uuid>`; a
      500 has removed it; a 200 leaves it for removal on stream close; a 404
      leaves it on disk with nothing to remove it. */
  lemma BurnResponses(req: Request, env: Env)
    requires env.Valid()
    ensures var o := Burn(req, env);
      && o.status in {200, 400, 404, 500}
      && (o.status == 400 <==> !Truthy(req.audio) || !Truthy(req.subtitles))
      && (o.status == 400 ==> o.workspace == NotCreated && o.encode.None?)
      && (o.status != 400 ==> !o.workspace.NotCreated? && o.workspace.path == WorkspacePath(env.uuid))
      && (o.status == 500 ==> o.workspace.Removed? && !o.cleanupOnClose)
      && (o.status == 404 ==> o.workspace.Present? && !o.cleanupOnClose)
      && (o.status == 200 <==> o.workspace.Present? && o.cleanupOnClose)
      && (o.status == 200 <==> o.encode.Some?)
  {
  }

  /** A 404 answers exactly a valid request whose uploads were written and
      whose explicit video file does not exist. */
  lemma NotFoundExactly(req: Request, env: Env)
    requires env.Valid()
    ensures Burn(req, env).status == 404 <==>
      && Truthy(req.audio) && Truthy(req.subtitles) && Uploadable(req) && env.writesOk
      && req.video.Str? && req.video.s != ""
      && VideoPath(req.video.s) !in env.existing
  {
  }

  /** A successful job encodes the resolved clip from its offset, with the
      uploaded audio and the subtitle file after both edits. */
  lemma EncodeInputs(req: Request, env: Env)
    requires env.Valid()
    requires Burn(req, env).status == 200
    ensures var tmp := WorkspacePath(env.uuid);
      && Resolve(req.video, tmp, env).Chosen?
      && var c := Resolve(req.video, tmp, env).clip;
      && env.converted.Some?
      && Burn(req, env).encode == Some(EncodeJob(
           c.offset, c.path, AudioPath(tmp),
           WrapPatched(StyleRewrite(env.converted.value, FontsizeText(req), OutlineText(req))),
           OutputPath(tmp)))
      && 0.0 <= c.offset
      && (Truthy(req.video) ==> c.offset == 0.0)
      && (!Truthy(req.video) ==>
            && env.probe(c.path).Some? && env.probe(AudioPath(tmp)).Some?
            && var v := env.probe(c.path).value;
            && var a := env.probe(AudioPath(tmp)).value;
            && c.offset == StartOffset(v, a, env.r2)
            && (v.Finite? && a.Finite? && v.x - a.x - 1.0 > 0.0 ==> c.offset < v.x - a.x - 1.0)
            && (v.NaN? || a.NaN? || v.x - a.x - 1.0 <= 0.0 ==> c.offset == 0.0))
  {
    var tmp := WorkspacePath(env.uuid);
    if !Truthy(req.video) {
      RandomVideo(req.video, tmp, env);
      var c := Resolve(req.video, tmp, env).clip;
      StartOffsetBounds(env.probe(c.path).value, env.probe(AudioPath(tmp)).value, env.r2);
    }
  }

  /** Every failure after the workspace exists is a 500 that has removed
      it: uploads that cannot be written, no clip to draw, a failing
      `ffprobe` (through `RandomVideo`), a non-string `video`, and a failing
      conversion, style `sed`, WrapStyle command or encode. Nothing else
      answers 500. */
  lemma FailureResponses(req: Request, env: Env)
    requires env.Valid()
    ensures var res := Resolve(req.video, WorkspacePath(env.uuid), env);
      Burn(req, env).status == 500 <==>
        && Truthy(req.audio) && Truthy(req.subtitles)
        && (|| !Uploadable(req) || !env.writesOk || res.Failed?
            || (res.Chosen? && (env.converted.None? || !env.styleSedOk || !env.wrapSedOk || !env.encodeOk)))
    ensures Burn(req, env).status == 500 ==> Burn(req, env) == Failure(WorkspacePath(env.uuid))
  {
  }

  /** One `/burn` request being served. */
  class BurnJob {
    var workspace: Workspace
    var status: int
    var cleanupOnClose: bool
    var encode: Option<EncodeJob>

    constructor ()
      ensures workspace == NotCreated && status == 0 && !cleanupOnClose && encode == None
    {
      workspace := NotCreated;
      status := 0;
      cleanupOnClose := false;
      encode := None;
    }

    /** The catch block: `cleanup(tmp)` and a 500. */
    method Abort(tmp: string)
      modifies this
      ensures workspace == Removed(tmp) && status == 500
      ensures cleanupOnClose == old(cleanupOnClose) && encode == old(encode)
    {
      workspace := Removed(tmp);
      status := 500;
    }

    /** The `/burn` handler, from the destructuring of the body to the
        catch block. */
    method Handle(req: Request, env: Env)
      requires env.Valid()
      modifies this
      ensures Outcome(status, workspace, cleanupOnClose, encode) == Burn(req, env)
    {
      cleanupOnClose := false;
      encode := None;
      var video := req.video;
      var fontsize := if req.fontsize.Undefined? then Num(DefaultFontsize) else req.fontsize;
      var outline := if req.outline.Undefined? then Num(DefaultOutline) else req.outline;
      if !Truthy(req.audio) || !Truthy(req.subtitles) {
        workspace := NotCreated;
        status := 400;
        return;
      }
      var tmp := WorkspacePath(env.uuid);
      workspace := Present(tmp);
      var audioPath := AudioPath(tmp);
      if !Uploadable(req) || !env.writesOk {
        Abort(tmp);
        return;
      }
      var videoFilePath: string;
      var startOffset := 0.0;
      if !Truthy(video) {
        if env.listing.None? {
          Abort(tmp);
          return;
        }
        var defaults := DefaultVideos(env.listing.value);
        if |defaults| == 0 {
          Abort(tmp);
          return;
        }
        PickIndexInRange(env.r1, |defaults|);
        var name := defaults[PickIndex(env.r1, |defaults|)];
        video := Str(name);
        videoFilePath := VideoPath(name);
        var videoDuration := env.probe(videoFilePath);
        if videoDuration.None? {
          Abort(tmp);
          return;
        }
        var audioDuration := env.probe(audioPath);
        if audioDuration.None? {
          Abort(tmp);
          return;
        }
        startOffset := StartOffset(videoDuration.value, audioDuration.value, env.r2);
      } else {
        if !video.Str? {
          Abort(tmp);
          return;
        }
        videoFilePath := VideoPath(video.s);
        if videoFilePath !in env.existing {
          status := 404;
          return;
        }
      }
      if env.converted.None? {
        Abort(tmp);
        return;
      }
      var ass := new AssFile(env.converted.value);
      ass.RewriteStyle(JsText(fontsize), JsText(outline));
      if !env.styleSedOk {
        Abort(tmp);
        return;
      }
      ass.PatchWrapStyle();
      if !env.wrapSedOk {
        Abort(tmp);
        return;
      }
      if !env.encodeOk {
        Abort(tmp);
        return;
      }
      encode := Some(EncodeJob(startOffset, videoFilePath, audioPath, ass.lines, OutputPath(tmp)));
      status := 200;
      cleanupOnClose := true;
    }

    /** The removal registered for when the response stream closes. */
    method StreamClosed()
      requires cleanupOnClose && workspace.Present?
      modifies this
      ensures workspace == Removed(old(workspace).path)
      ensures status == old(status) && encode == old(encode) && !cleanupOnClose
    {
      workspace := Removed(workspace.path);
      cleanupOnClose := false;
    }
  }

  /** One request from arrival until the response stream closes: only the
      404 path leaves its workspace behind. */
  method Serve(req: Request, env: Env) returns (status: int, finalWorkspace: Workspace)
    requires env.Valid()
    ensures status == Burn(req, env).status
    ensures status == 400 ==> finalWorkspace == NotCreated
    ensures status == 404 ==> finalWorkspace == Present(WorkspacePath(env.uuid))
    ensures status == 200 || status == 500 ==> finalWorkspace == Removed(WorkspacePath(env.uuid))
  {
    var job := new BurnJob();
    job.Handle(req, env);
    BurnResponses(req, env);
    if job.cleanupOnClose {
      job.StreamClosed();
    }
    status := job.status;
    finalWorkspace := job.workspace;
  }
}
