/** The per-image pipeline of `extract_faces` and the directory scan of
    `process_images`. Decoding and detection are foreign: the decoder is
    represented by the image size it reports (or None for an unreadable
    file) and the detector by the list of boxes it returns. */
module Extract {
  import opened Boxes
  import Selection
  import Crop
  import opened Paths

  datatype Option<T> = None | Some(value: T)

  /** A crop `extract_faces` computes: the output path, the slice bounds
      (x1, y1, x2, y2) it indexes the image with, and the pixels those
      bounds select. */
  datatype Saved = Saved(path: string, region: Box, pixels: Box)

  /** What one call of `extract_faces` does: it returns early without
      writing (unreadable image, no face), writes the crop, or fails in the
      write because the crop has no pixels; the image library raises on an
      empty image and nothing in the script catches it. */
  datatype Outcome = Skipped | Written(saved: Saved) | WriteFailed(saved: Saved)

  /** The parameters of a run, with what the decoder and the detector
      report for each path handed to `extract_faces`: `images` holds the
      size of every readable image (a path it lacks is unreadable) and
      `detections` the boxes found in it (a path it lacks has none). */
  datatype Env = Env(outputDir: string, padding: real, images: map<string, Size>, detections: map<string, seq<Box>>)

  function Image(env: Env, path: string): Option<Size>
  {
    if path in env.images then Some(env.images[path]) else None
  }

  function Faces(env: Env, path: string): seq<Box>
  {
    if path in env.detections then env.detections[path] else []
  }

  /** `extract_faces(image_path, output_dir, padding)`: nothing for an
      unreadable image or an image without faces; otherwise the padded crop
      of the largest face, written as `<stem>_face.jpg` in `outputDir`
      unless it selects no pixels. */
  function ExtractFace(imagePath: string, outputDir: string, padding: real,
                       image: Option<Size>, faces: seq<Box>): (r: Outcome)
    ensures r.Skipped? <==> image.None? || |faces| == 0
    ensures !r.Skipped? ==> r.saved.path == Join(outputDir, OutputName(imagePath))
    ensures !r.Skipped? ==> InImage(r.saved.pixels, image.value) && WellFormed(r.saved.pixels)
    ensures r.Written? <==> !r.Skipped? && !Crop.IsEmpty(r.saved.pixels)
  {
    if image.None? then Skipped
    else if |faces| == 0 then Skipped
    else
      var region := Crop.PaddedCrop(Selection.Largest(faces), image.value, padding);
      var saved := Saved(Join(outputDir, OutputName(imagePath)), region, Crop.Cut(region, image.value));
      if Crop.IsEmpty(saved.pixels) then WriteFailed(saved) else Written(saved)
  }

  /** For a readable image with at least one face, the crop is the padded
      crop of the largest face, whatever the other detections are. With a
      non-negative ratio it contains that face's part of the image; if that
      face also reaches the image, the crop is well-formed and its bounds
      select exactly the pixels they name. */
  lemma ExtractFaceRegion(imagePath: string, outputDir: string, padding: real,
                          size: Size, faces: seq<Box>)
    requires |faces| > 0
    ensures var r := ExtractFace(imagePath, outputDir, padding, Some(size), faces);
            var face := Selection.Largest(faces);
            !r.Skipped? && r.saved.region == Crop.PaddedCrop(face, size, padding) &&
            r.saved.pixels == Crop.Cut(r.saved.region, size)
    ensures var r := ExtractFace(imagePath, outputDir, padding, Some(size), faces);
            var face := Selection.Largest(faces);
            0.0 <= padding && WellFormed(face) ==> Contains(r.saved.region, Clip(face, size))
    ensures var r := ExtractFace(imagePath, outputDir, padding, Some(size), faces);
            var face := Selection.Largest(faces);
            0.0 <= padding && WellFormed(face) && Overlaps(face, size) ==>
              WellFormed(r.saved.region) && r.saved.pixels == r.saved.region
  {
    var face := Selection.Largest(faces);
    if 0.0 <= padding && WellFormed(face) {
      Crop.PaddedCropContainsFace(face, size, padding);
      if Overlaps(face, size) {
        Crop.PaddedCropWellFormed(face, size, padding);
      }
    }
  }

  /** With a non-negative ratio, an image with pixels, and a largest face
      whose part inside the image has positive width and height, the crop
      is written. */
  lemma ExtractFaceWrites(imagePath: string, outputDir: string, padding: real,
                          size: Size, faces: seq<Box>)
    requires |faces| > 0 && 0.0 <= padding && 0 < size.width && 0 < size.height
    requires var f := Selection.Largest(faces);
             f.x1 < f.x2 && f.x1 < size.width && 0 < f.x2 && f.y1 < f.y2 && f.y1 < size.height && 0 < f.y2
    ensures ExtractFace(imagePath, outputDir, padding, Some(size), faces).Written?
  {
    Crop.PaddedCropNonEmpty(Selection.Largest(faces), size, padding);
  }

  /** The paths the filter in `process_images` selects, in listing order:
      each entry joined to the input directory, kept when the lower-cased
      joined path ends in .jpg, .jpeg or .png. The run hands them to
      `extract_faces` in this order until a write raises. */
  function ImageFiles(inputDir: string, listing: seq<string>): (paths: seq<string>)
    ensures |paths| <= |listing|
    ensures forall p :: p in paths ==> HasImageExtension(p)
    decreases |listing|
  {
    if |listing| == 0 then []
    else
      var path := Join(inputDir, listing[0]);
      (if HasImageExtension(path) then [path] else []) + ImageFiles(inputDir, listing[1..])
  }

  /** Filtering is applied entry by entry, so listing order is kept:
      the scan of two listings one after the other is the concatenation of
      their scans. */
  lemma {:induction false} ImageFilesAppend(inputDir: string, a: seq<string>, b: seq<string>)
    ensures ImageFiles(inputDir, a + b) == ImageFiles(inputDir, a) + ImageFiles(inputDir, b)
    decreases |a|
  {
    if |a| > 0 {
      assert (a + b)[1..] == a[1..] + b;
      ImageFilesAppend(inputDir, a[1..], b);
    } else {
      assert a + b == b;
    }
  }

  /** A path is selected by the filter exactly when it is some listed
      entry joined to the input directory and that entry's own name ends in
      an image extension, case-insensitively. */
  lemma {:induction false} ImageFilesExactly(inputDir: string, listing: seq<string>, p: string)
    ensures p in ImageFiles(inputDir, listing) <==>
            exists i :: 0 <= i < |listing| && p == Join(inputDir, listing[i]) && HasImageExtension(listing[i])
    decreases |listing|
  {
    if |listing| > 0 {
      ImageFilesExactly(inputDir, listing[1..], p);
      JoinKeepsExtension(inputDir, listing[0]);
      if exists i :: 0 <= i < |listing| && p == Join(inputDir, listing[i]) && HasImageExtension(listing[i]) {
        var i :| 0 <= i < |listing| && p == Join(inputDir, listing[i]) && HasImageExtension(listing[i]);
        if i > 0 {
          assert listing[1..][i - 1] == listing[i];
        }
      }
      forall i | 1 <= i < |listing|
        ensures listing[i] == listing[1..][i - 1]
      {
      }
    }
  }

  /** One pass of the loop in `process_images`: the entry is joined to the
      input directory and handed to `extract_faces` only if the joined path
      has an image extension. Anything but a skip needs an image entry. */
  function Step(inputDir: string, name: string, env: Env): (r: Outcome)
    ensures !r.Skipped? ==> HasImageExtension(Join(inputDir, name)) && HasImageExtension(name)
    ensures !HasImageExtension(name) ==> r.Skipped?
  {
    JoinKeepsExtension(inputDir, name);
    var path := Join(inputDir, name);
    if HasImageExtension(path) then ExtractFace(path, env.outputDir, env.padding, Image(env, path), Faces(env, path))
    else Skipped
  }

  /** The result of a run: the crops written, in order, and the path whose
      write raised and ended the run, if any. */
  datatype Run = Run(written: seq<Saved>, failedAt: Option<string>)

  /** `process_images(input_dir, output_dir, padding)` after the output
      directory exists: the loop over the listing, which ends early when a
      write raises. */
  function ProcessImages(inputDir: string, listing: seq<string>, env: Env): (run: Run)
    ensures |run.written| <= |ImageFiles(inputDir, listing)|
    ensures run.failedAt.Some? ==> run.failedAt.value in ImageFiles(inputDir, listing)
    decreases |listing|
  {
    if |listing| == 0 then Run([], None)
    else
      match Step(inputDir, listing[0], env)
      case Skipped => ProcessImages(inputDir, listing[1..], env)
      case WriteFailed(_) => Run([], Some(Join(inputDir, listing[0])))
      case Written(s) =>
        var rest := ProcessImages(inputDir, listing[1..], env);
        Run([s] + rest.written, rest.failedAt)
  }

  /** No entry before position `k` of the listing makes its write raise. */
  predicate NoFailureBefore(inputDir: string, listing: seq<string>, k: nat, env: Env)
    requires k <= |listing|
  {
    forall j :: 0 <= j < k ==> !Step(inputDir, listing[j], env).WriteFailed?
  }

  lemma NoFailureBeforeTail(inputDir: string, listing: seq<string>, k: nat, env: Env)
    requires 0 < k <= |listing|
    ensures NoFailureBefore(inputDir, listing, k, env) <==>
            !Step(inputDir, listing[0], env).WriteFailed? && NoFailureBefore(inputDir, listing[1..], k - 1, env)
  {
    assert forall j :: 1 <= j < k ==> listing[1..][j - 1] == listing[j];
  }

  /** Entry `i` of the listing writes crop `s`, and no earlier entry's
      write has raised. */
  predicate WrittenAt(inputDir: string, listing: seq<string>, i: int, env: Env, s: Saved)
  {
    0 <= i < |listing| && Step(inputDir, listing[i], env) == Written(s) && NoFailureBefore(inputDir, listing, i, env)
  }

  lemma WrittenAtTail(inputDir: string, listing: seq<string>, i: int, env: Env, s: Saved)
    requires 0 < i
    requires 0 < |listing|
    ensures WrittenAt(inputDir, listing, i, env, s) <==>
            !Step(inputDir, listing[0], env).WriteFailed? && WrittenAt(inputDir, listing[1..], i - 1, env, s)
  {
    if i <= |listing| {
      NoFailureBeforeTail(inputDir, listing, i, env);
    }
    if i < |listing| {
      assert listing[1..][i - 1] == listing[i];
    }
  }

  /** Unreadable images and images without faces do not stop the run: a
      crop is written exactly when some listed entry's pass writes it and
      no earlier entry's write has raised. */
  lemma {:induction false} ProcessImagesExactly(inputDir: string, listing: seq<string>, env: Env, s: Saved)
    ensures s in ProcessImages(inputDir, listing, env).written <==> exists i :: WrittenAt(inputDir, listing, i, env, s)
    decreases |listing|
  {
    if |listing| > 0 {
      var tail := listing[1..];
      ProcessImagesExactly(inputDir, tail, env, s);
      var head := Step(inputDir, listing[0], env);
      ProcessImagesPrepend(inputDir, listing, env);
      if exists i :: WrittenAt(inputDir, listing, i, env, s) {
        var i :| WrittenAt(inputDir, listing, i, env, s);
        if i > 0 {
          WrittenAtTail(inputDir, listing, i, env, s);
        }
      }
      if !head.WriteFailed? && exists i :: WrittenAt(inputDir, tail, i, env, s) {
        var i :| WrittenAt(inputDir, tail, i, env, s);
        WrittenAtTail(inputDir, listing, i + 1, env, s);
      }
      if head == Written(s) {
        assert WrittenAt(inputDir, listing, 0, env, s);
      }
    }
  }

  /** The run ends early exactly when some entry's write raises, and then
      it ends at the first such entry. */
  lemma {:induction false} ProcessImagesFailure(inputDir: string, listing: seq<string>, env: Env)
    ensures ProcessImages(inputDir, listing, env).failedAt.None? <==> NoFailureBefore(inputDir, listing, |listing|, env)
    ensures ProcessImages(inputDir, listing, env).failedAt.Some? ==>
            exists k :: 0 <= k < |listing| && Step(inputDir, listing[k], env).WriteFailed? &&
                        NoFailureBefore(inputDir, listing, k, env) &&
                        ProcessImages(inputDir, listing, env).failedAt.value == Join(inputDir, listing[k])
    decreases |listing|
  {
    if |listing| > 0 {
      var tail := listing[1..];
      ProcessImagesFailure(inputDir, tail, env);
      NoFailureBeforeTail(inputDir, listing, |listing|, env);
      var run := ProcessImages(inputDir, listing, env);
      if run.failedAt.Some? && !Step(inputDir, listing[0], env).WriteFailed? {
        var k :| 0 <= k < |tail| && Step(inputDir, tail[k], env).WriteFailed? &&
                 NoFailureBefore(inputDir, tail, k, env) &&
                 ProcessImages(inputDir, tail, env).failedAt.value == Join(inputDir, tail[k]);
        NoFailureBeforeTail(inputDir, listing, k + 1, env);
        assert listing[k + 1] == tail[k];
      }
    }
  }

  /** The loop handles the listing front to back: running over two listings
      in sequence writes the first one's crops and then, unless the first
      one ended early, the second one's. */
  lemma {:induction false} ProcessImagesAppend(inputDir: string, a: seq<string>, b: seq<string>, env: Env)
    ensures var first := ProcessImages(inputDir, a, env);
            var second := ProcessImages(inputDir, b, env);
            ProcessImages(inputDir, a + b, env) == Then(first, second)
    decreases |a|
  {
    var first := ProcessImages(inputDir, a, env);
    var second := ProcessImages(inputDir, b, env);
    if |a| == 0 {
      assert a + b == b;
      assert [] + second.written == second.written;
    } else {
      var ab := a + b;
      assert ab[0] == a[0];
      assert ab[1..] == a[1..] + b;
      ProcessImagesAppend(inputDir, a[1..], b, env);
      ProcessImagesPrepend(inputDir, a, env);
      ProcessImagesPrepend(inputDir, ab, env);
      ThenPrepend(Step(inputDir, a[0], env), Join(inputDir, a[0]), ProcessImages(inputDir, a[1..], env), second);
    }
  }

  /** The effect of one entry's outcome on the run over the entries after
      it. */
  function Prepend(head: Outcome, path: string, rest: Run): Run
  {
    match head
    case Skipped => rest
    case WriteFailed(_) => Run([], Some(path))
    case Written(s) => Run([s] + rest.written, rest.failedAt)
  }

  /** One run followed by another: the second runs only if the first did
      not end early. */
  function Then(first: Run, second: Run): Run
  {
    if first.failedAt.Some? then first else Run(first.written + second.written, second.failedAt)
  }

  lemma ProcessImagesPrepend(inputDir: string, listing: seq<string>, env: Env)
    requires |listing| > 0
    ensures ProcessImages(inputDir, listing, env) ==
            Prepend(Step(inputDir, listing[0], env), Join(inputDir, listing[0]), ProcessImages(inputDir, listing[1..], env))
  {
  }

  lemma ThenPrepend(head: Outcome, path: string, rest: Run, second: Run)
    ensures Then(Prepend(head, path, rest), second) == Prepend(head, path, Then(rest, second))
  {
    if head.Written? {
      assert [head.saved] + (rest.written + second.written) == ([head.saved] + rest.written) + second.written;
    }
  }

  /** The loop run over an already filtered list of paths: each one is
      handed to `extract_faces` in turn, and a write that raises ends the
      run. */
  function RunPaths(paths: seq<string>, env: Env): (run: Run)
    ensures |run.written| <= |paths|
    ensures run.failedAt.Some? ==> run.failedAt.value in paths
    decreases |paths|
  {
    if |paths| == 0 then Run([], None)
    else
      var path := paths[0];
      Prepend(ExtractFace(path, env.outputDir, env.padding, Image(env, path), Faces(env, path)), path, RunPaths(paths[1..], env))
  }

  /** Testing each entry inside the loop is the same as filtering the
      listing first and handing the selected paths over in order: a run is
      the extractor run over `ImageFiles`, up to the first write that
      raises. */
  lemma {:induction false} ProcessImagesOverImageFiles(inputDir: string, listing: seq<string>, env: Env)
    ensures ProcessImages(inputDir, listing, env) == RunPaths(ImageFiles(inputDir, listing), env)
    decreases |listing|
  {
    if |listing| > 0 {
      ProcessImagesOverImageFiles(inputDir, listing[1..], env);
      ProcessImagesPrepend(inputDir, listing, env);
      var path := Join(inputDir, listing[0]);
      var rest := ImageFiles(inputDir, listing[1..]);
      if HasImageExtension(path) {
        assert ImageFiles(inputDir, listing) == [path] + rest;
        assert ([path] + rest)[1..] == rest;
      } else {
        assert ImageFiles(inputDir, listing) == rest;
      }
    }
  }
}
