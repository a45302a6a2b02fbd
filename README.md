# Face extraction: a Dafny model of the crop logic

`src/extract_faces.py` batch-extracts one face per image from a directory of
photos. A pretrained detector finds the faces, and the script keeps the
largest one. It grows that face's box by a padding ratio to take in hair and
neck, clamps the box to the image, and writes the crop as `<stem>_face.jpg`
into an output directory. This project models the integer and string logic
between the decoder and detector calls, and proves what that logic
guarantees:

- `Boxes` (`boxes.dfy`): bounding boxes `(x1, y1, x2, y2)`, image sizes,
  area, well-formedness, containment, and clipping a box to the image.
- `Selection` (`selection.dfy`): `max(faces, key=area)`. Python's `max`
  keeps its candidate unless a later key is strictly greater, so among equal
  largest areas the first face wins.
- `Crop` (`crop.dfy`): `int(padding * width)` as truncation toward zero on
  an exact real, the padded, clamped crop rectangle, and the pixels the
  slice `img[y1:y2, x1:x2]` selects with it. A negative slice bound counts
  back from the far edge of the image, so the rectangle and the pixels
  differ when an edge is negative (`Crop.CutNegativeEndExample`).
- `Paths` (`paths.dfy`): POSIX `basename` and `join`, `split('.')[0]`,
  ASCII `lower()`, `endswith` and the image-extension test.
- `Extract` (`extract.dfy`): the early returns of `extract_faces`, the
  loop of `process_images`, and the crops a whole run writes. The decoder
  is represented by a map from path to image size (a missing path is an
  unreadable file) and the detector by a map from path to the boxes it
  finds (a missing path has none). Writing a crop that selects no pixels
  raises in the image library, and nothing catches it, so the run stops
  there: `Extract.ProcessImagesFailure` states where.

The code clamps each edge on one side only: lines 44-47 keep the near edges
at or above 0 and the far edges at or below the width and height. Nothing
bounds `x1` by the width or `x2` from below, so `x1` can pass the width
(`Crop.PaddedCropNeedsOverlap`) and `x2` can be negative
(`Crop.CutNegativeEndExample`). With a non-negative ratio, a well-formed
face box that reaches the image is enough for the crop's corners to be in
order (`Crop.PaddedCropWellFormed`). The ratio condition is needed
(`Crop.NegativePaddingInvertsExample`), but reaching the image is not:
`Crop.OverlapNotNecessary` gives a face outside the image whose padded crop
is well-formed.

## Model

| member | source | states |
|---|---|---|
| Boxes.Area | src/extract_faces.py:31 | the `max` key `(x2 - x1) * (y2 - y1)` is non-negative for a well-formed box and positive when both extents are positive |
| Boxes.Clip | src/extract_faces.py:44-47 | the face clamped to the image lies inside the image and inside the face; it is well-formed when the face is well-formed and reaches the image |
| Boxes.ClipIdempotent | src/extract_faces.py:44-47 | clamping leaves a box already inside the image unchanged; clamping twice equals clamping once |
| Selection.LargestIndex | src/extract_faces.py:31 | the chosen index is in range; no face has a larger area; every earlier face has a strictly smaller area (first maximal element) |
| Selection.Largest | src/extract_faces.py:31 | the chosen face is a member of the detections, has the largest area, and appears at a position where all earlier faces are strictly smaller |
| Selection.LargestIndexUnique | src/extract_faces.py:31 | any index that is a maximum with strictly smaller areas before it is the index `max` returns, so the three guarantees characterise the choice |
| Selection.LargestOfOne | src/extract_faces.py:31 | with a single detection, that face is chosen |
| Crop.Truncate | src/extract_faces.py:40-41 | `int(x)` truncates toward zero: the result is within one unit of `x` on the zero side |
| Crop.Pad | src/extract_faces.py:40-41 | for a non-negative ratio and size the pad is between 0 and the exact margin `padding * size` |
| Crop.PadBounds | src/extract_faces.py:38-41 | for a non-negative ratio and size, the pad is `floor(padding * size)`, at least 0 and at most the exact margin |
| Crop.PadMonotone | src/extract_faces.py:40-41 | a larger ratio never gives a smaller pad |
| Crop.PaddedCrop | src/extract_faces.py:34-47 | the crop rectangle's near edges are not negative and its far edges do not pass the width and height |
| Crop.SliceIndex | src/extract_faces.py:50 | a slice bound is normalised into `[0, len]`: kept when in range, counted back from the end when negative, cut to `len` when past it |
| Crop.Cut | src/extract_faces.py:50 | the pixels `img[y1:y2, x1:x2]` selects form a well-formed box inside the image, equal to the bounds when those are well-formed and inside the image |
| Crop.CutNegativeEndExample | src/extract_faces.py:44-50 | face (-100,-100,-50,-50) in a 300 x 300 image with ratio 0 gives bounds (0,0,-50,-50) that select the 250 x 250 pixels (0,0,250,250) |
| Crop.NegativePaddingEmptyExample | src/extract_faces.py:40-50 | ratio -0.5 on face (100,100,200,200) gives pads of -50 and bounds (150,150,150,150) that select no pixels |
| Crop.PaddedCropNonEmpty | src/extract_faces.py:38-50 | with ratio >= 0, a non-empty image and a face whose part in the image has positive extents, the slice selects exactly the crop rectangle and it is not empty |
| Crop.PaddedCropWellFormed | src/extract_faces.py:38-47 | with ratio >= 0, a well-formed face and a face that reaches the image, the crop has `x1 <= x2` and `y1 <= y2` |
| Crop.OverlapNotNecessary | src/extract_faces.py:38-47 | reaching the image is sufficient but not necessary: face (310,0,400,10) in a 300 x 300 image with ratio 0.5 gives the well-formed crop (265,0,300,15) |
| Crop.NegativePaddingInvertsExample | src/extract_faces.py:38-47 | the non-negative ratio is needed for well-formedness: ratio -0.75 on face (100,100,200,200), which reaches a 300 x 300 image, gives pads of -75 and the crop (175,175,125,125) with its corners out of order |
| Crop.PaddedCropNeedsOverlap | src/extract_faces.py:44-47 | without the overlap condition well-formedness fails: face (400,0,500,10) in a 300 x 300 image gives a crop with `x1 > x2` |
| Crop.PaddedCropContainsFace | src/extract_faces.py:40-47 | padding never shrinks the face: the crop contains the face intersected with the image |
| Crop.ZeroPaddingClips | src/extract_faces.py:40-47 | with ratio 0 the crop is exactly the face clipped to the image |
| Crop.PaddedCropMonotone | src/extract_faces.py:40-47 | a larger ratio gives a crop containing the smaller ratio's crop |
| Crop.PaddedCropSizeBound | src/extract_faces.py:38-47 | the crop is at most `(1 + 2 * padding)` times the face's width and height |
| Crop.PaddedCropExample | src/extract_faces.py:38-47 | face (100,100,200,200), image 300 x 300, ratio 0.3: pads of 30 and crop (70,70,230,230) |
| Paths.Basename | src/extract_faces.py:53 | the basename is a suffix of the path with no '/', and it is the whole path or follows a '/' |
| Paths.BasenameUnique | src/extract_faces.py:53 | those three properties determine the basename |
| Paths.Stem | src/extract_faces.py:53 | `split('.')[0]` is a prefix with no '.', and it is the whole text or is followed by a '.' |
| Paths.OutputName | src/extract_faces.py:53 | the output name has no '/' and ends in `_face.jpg` |
| Paths.OutputNameExactly | src/extract_faces.py:53 | the output name is a stem followed by `_face.jpg`, where the stem is the basename cut at its first '.': a prefix of the basename with no '.' and no '/' that is the whole basename or is followed there by '.' |
| Paths.Join | src/extract_faces.py:53 | `os.path.join` gives the name alone, the two parts concatenated, or the parts joined by '/'; an absolute second part replaces the first |
| Paths.OutputPathInDirectory | src/extract_faces.py:53 | the output name has no '/'; the output path is `dir + name` when `dir` is empty or ends in '/', and `dir + "/" + name` otherwise |
| Paths.LowerChar | src/extract_faces.py:67 | 'A'..'Z' map to 'a'..'z' and every other character is unchanged |
| Paths.Lower | src/extract_faces.py:67 | lower-casing keeps the length and lower-cases each character |
| Paths.LowerAppend | src/extract_faces.py:67 | lower-casing a concatenation lower-cases each part |
| Paths.EndsWithExactly | src/extract_faces.py:67 | `s.endswith(suffix)` holds exactly when `s` is some text followed by `suffix` |
| Paths.HasImageExtension | src/extract_faces.py:67 | a path that passes the extension test has at least four characters |
| Paths.ExtensionCaseInsensitive | src/extract_faces.py:67 | any name followed by an extension whose lower-cased form is ".jpg", ".jpeg" or ".png", in any mix of cases, passes the test |
| Paths.JoinKeepsExtension | src/extract_faces.py:66-67 | the extension test on the joined path agrees with the test on the listed entry's name, for every directory |
| Paths.UpperCaseExtensionAccepted | src/extract_faces.py:67 | "PHOTO.JPG" passes the extension test and "notes.txt" does not |
| Extract.ExtractFace | src/extract_faces.py:14-54 | nothing is written exactly when the image is unreadable or has no faces; otherwise the crop is saved at the output directory joined with the output name, its pixels are a well-formed box inside the image, and the write succeeds exactly when those pixels are not empty |
| Extract.ExtractFaceRegion | src/extract_faces.py:31-50 | for a readable image with a face, the slice bounds are the padded crop of the largest face and the pixels are what those bounds select; with ratio >= 0 and that face well-formed they contain its part of the image, and if it also reaches the image they are well-formed and select exactly themselves |
| Extract.ExtractFaceWrites | src/extract_faces.py:38-54 | with ratio >= 0, a non-empty image and a largest face whose part in the image has positive extents, the crop is written |
| Extract.ImageFiles | src/extract_faces.py:65-67 | the filter selects at most one path per listed entry, and every selected path has an image extension |
| Extract.ImageFilesAppend | src/extract_faces.py:65-67 | the scan of two listings in sequence is the concatenation of their scans, so listing order is kept |
| Extract.ImageFilesExactly | src/extract_faces.py:65-67 | a path is selected by the filter exactly when it is a listed entry joined to the input directory and the entry's name ends in .jpg, .jpeg or .png, case-insensitively |
| Extract.Step | src/extract_faces.py:65-68 | one pass of the loop does something only for an entry whose name, and whose joined path, has an image extension |
| Extract.ProcessImages | src/extract_faces.py:59-68 | a run writes at most one crop per image path, and a run that stops does so at one of the image paths |
| Extract.RunPaths | src/extract_faces.py:65-68 | handing already selected paths to the extractor in order writes at most one crop per path and, if a write raises, stops at one of those paths |
| Extract.ProcessImagesOverImageFiles | src/extract_faces.py:65-68 | testing each entry inside the loop is the same as filtering the listing first: a run equals the extractor run over the filter's selected paths in listing order, up to the first write that raises |
| Extract.ProcessImagesExactly | src/extract_faces.py:65-68 | a crop is written exactly when some entry's pass writes it and no earlier entry's write has raised |
| Extract.ProcessImagesFailure | src/extract_faces.py:54-68 | the run stops early exactly when some entry's write raises, and then it stops at the first such entry |
| Extract.ProcessImagesAppend | src/extract_faces.py:65-68 | the run over two listings in sequence is the first run, followed by the second run unless the first stopped early (`Then`) |

## Left out

- Model loading and inference (src/extract_faces.py:7-8, 23): an opaque
  pretrained detector. Its output for each path is an input map of boxes.
- Image decoding and JPEG encoding (lines 14, 20, 54): only the image size,
  the slice bounds and the pixel rectangle they select are modelled. No
  file is written; whether a write succeeds is decided only by whether the
  crop has pixels. Other write errors (a full disk, a missing directory)
  are not modelled.
- Floating point: the IEEE rounding of `padding * width` is not modelled;
  padding is an exact real. For example, 0.29 * 100 truncates to 28 with
  doubles and to 29 here. The `astype(int)` truncation of the detector's
  float coordinates is not modelled; boxes are integer from the start. The
  area comparison in `max` is made on the integer boxes, not on the
  unconverted float boxes. A padding of `nan` or `inf` is accepted by
  the argument parser (line 77), and then `int()` on line 40 raises on the
  first image with a face and the run ends; an exact real cannot be NaN
  or infinite, so this stop is not modelled. A finite padding large
  enough that `padding * width` overflows float64 (for example `1e308`),
  or that the pad leaves the 64-bit integer range (the coordinates are
  NumPy int64 from line 34; for example `1e17` on a width of 100), also
  makes lines 40-47 raise or wrap around. Unbounded integers and an exact
  real do not model this: the model computes a crop for every finite
  padding.
- The status prints (lines 16, 27, 55, 62, 83-85): console output only.
- Command-line parsing and the input-directory existence check (lines 72-91):
  process plumbing before the modelled logic runs.
- Output-directory creation (lines 60-62): a filesystem side effect.
  `ProcessImages` describes the run after the directory exists. The print on
  line 62 refers to the global `args.output` rather than the parameter; this
  is not modelled.
- `str.lower()` is modelled for ASCII only; Unicode case mapping is not.
- The order of `os.listdir` is not modelled; the listing is an input sequence.
- A later crop with the same output name overwrites an earlier one on disk;
  the model lists every crop written, in order, and does not model the
  directory's final contents.
