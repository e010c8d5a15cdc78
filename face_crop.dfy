/**
 * The integer logic of model/face_crop.py, the detector script the registration handler runs:
 * the padded and clamped crop box, the EXIF orientation correction, the resize guard, and
 * what the `__main__` block prints and how it exits. The computer-vision calls themselves
 * are inputs.
 */
module FaceCrop {
  import opened Wrappers

  const Padding := 50
  const MaxDim := 1600

  /** A face location as face_recognition reports it. */
  datatype Box = Box(top: int, right: int, bottom: int, left: int)

  /** The box lies within a `width` x `height` image. */
  predicate Inside(b: Box, width: int, height: int) {
    0 <= b.top <= b.bottom <= height && 0 <= b.left <= b.right <= width
  }

  predicate Contains(outer: Box, inner: Box) {
    outer.top <= inner.top && outer.left <= inner.left && inner.right <= outer.right && inner.bottom <= outer.bottom
  }

  /**
   * detect_and_process_face: the first face box, each side pushed out by the padding and then
   * clamped to the image.
   */
  method ExpandBox(face: Box, width: nat, height: nat) returns (r: Box)
    ensures 0 <= r.top && 0 <= r.left && r.right <= width && r.bottom <= height
    ensures face.top - Padding <= r.top && face.left - Padding <= r.left
    ensures r.right <= face.right + Padding && r.bottom <= face.bottom + Padding
    ensures r.top == 0 || r.top == face.top - Padding
    ensures r.left == 0 || r.left == face.left - Padding
    ensures r.right == width || r.right == face.right + Padding
    ensures r.bottom == height || r.bottom == face.bottom + Padding
    ensures Inside(face, width, height) ==> Contains(r, face) && Inside(r, width, height)
  {
    var top, right, bottom, left := face.top, face.right, face.bottom, face.left;
    var padding := 50;
    top := if 0 < top - padding then top - padding else 0;
    right := if width < right + padding then width else right + padding;
    bottom := if height < bottom + padding then height else bottom + padding;
    left := if 0 < left - padding then left - padding else 0;
    r := Box(top, right, bottom, left);
  }

  /**
   * The search over `ExifTags.TAGS` for the tag named Orientation. The loop variable survives
   * the loop: without a match it keeps the last key, and it is unbound (None) when there are no tags.
   */
  method FindOrientationKey(tags: seq<(int, string)>) returns (key: Option<int>)
    ensures key.None? <==> tags == []
    ensures forall k :: 0 <= k < |tags| && tags[k].1 == "Orientation" ==>
      exists j :: 0 <= j <= k && tags[j].1 == "Orientation" && key == Some(tags[j].0)
    ensures (forall k :: 0 <= k < |tags| ==> tags[k].1 != "Orientation") && tags != [] ==>
      key == Some(tags[|tags| - 1].0)
  {
    key := None;
    var i := 0;
    while i < |tags|
      invariant 0 <= i <= |tags|
      invariant forall k :: 0 <= k < i ==> tags[k].1 != "Orientation"
      invariant key.None? <==> i == 0
      invariant i > 0 ==> key == Some(tags[i - 1].0)
    {
      key := Some(tags[i].0);
      if tags[i].1 == "Orientation" {
        return;
      }
      i := i + 1;
    }
  }

  /** An image's size and how far it has been turned counter-clockwise since loading, in degrees. */
  datatype Image = Image(width: nat, height: nat, turned: int)

  /** PIL's `rotate(degrees, expand=True)` for a multiple of 90 degrees. */
  function Rotate(img: Image, degrees: int): (r: Image)
    ensures r.turned == img.turned + degrees
    ensures degrees % 180 == 0 ==> r.width == img.width && r.height == img.height
    ensures degrees % 180 == 90 ==> r.width == img.height && r.height == img.width
  {
    if degrees % 180 == 90 then Image(img.height, img.width, img.turned + degrees)
    else Image(img.width, img.height, img.turned + degrees)
  }

  /** What `img._getexif()` gives: it raises for formats without EXIF support, or returns None or the tags. */
  datatype Exif = Unsupported | NoExif | Tags(values: map<int, int>)

  /**
   * correct_image_orientation with the key found by the search: a raised exception and every
   * value other than 3, 6 or 8 leave the image as loaded.
   */
  function CorrectOrientation(img: Image, exif: Exif, key: Option<int>): (r: Image)
    ensures (exif.Tags? && exif.values != map[] && key.Some? && key.value in exif.values
             && exif.values[key.value] in {3, 6, 8}) || r == img
  {
    match exif
    case Unsupported => img
    case NoExif => img
    case Tags(values) =>
      if values == map[] then img
      else if key.None? then img
      else if key.value !in values then img
      else if values[key.value] == 3 then Rotate(img, 180)
      else if values[key.value] == 6 then Rotate(img, 270)
      else if values[key.value] == 8 then Rotate(img, 90)
      else img
  }

  /** Orientation 3 turns the image upside down, 6 and 8 turn it a quarter either way and swap its sides. */
  lemma OrientationMapping(img: Image, values: map<int, int>, key: int)
    requires key in values
    ensures values[key] == 3 ==> CorrectOrientation(img, Tags(values), Some(key)) == Image(img.width, img.height, img.turned + 180)
    ensures values[key] == 6 ==> CorrectOrientation(img, Tags(values), Some(key)) == Image(img.height, img.width, img.turned + 270)
    ensures values[key] == 8 ==> CorrectOrientation(img, Tags(values), Some(key)) == Image(img.height, img.width, img.turned + 90)
    ensures values[key] !in {3, 6, 8} ==> CorrectOrientation(img, Tags(values), Some(key)) == img
  {
    assert values != map[];
  }

  /**
   * resize_image: None when the image is returned untouched, otherwise the new (width, height),
   * computed here in exact arithmetic.
   */
  function ResizeTarget(height: nat, width: nat): (r: Option<(nat, nat)>)
    ensures r.None? <==> height <= MaxDim && width <= MaxDim
    ensures r.Some? ==> r.value.0 <= MaxDim && r.value.1 <= MaxDim
    ensures r.Some? ==> r.value.0 == MaxDim || r.value.1 == MaxDim
  {
    var largest := if height < width then width else height;
    if largest <= MaxDim then None
    else
      (ScaleBound(width, largest);
       ScaleBound(height, largest);
       Some((width * MaxDim / largest, height * MaxDim / largest)))
  }

  /** Scaling a side by MaxDim / largest keeps it within MaxDim, and the largest side lands on it. */
  lemma ScaleBound(side: nat, largest: nat)
    requires side <= largest && 0 < largest
    ensures side * MaxDim / largest <= MaxDim
    ensures side == largest ==> side * MaxDim / largest == MaxDim
  {
    MulMonotone(side, largest, MaxDim);
    DivAtMost(side * MaxDim, largest, MaxDim);
    if side == largest {
      DivExact(MaxDim, largest);
    }
  }

  lemma MulMonotone(a: nat, b: nat, m: nat)
    requires a <= b
    ensures a * m <= m * b
  {
  }

  lemma MulCancel(q: int, m: int, b: int)
    requires b > 0 && q * b <= m * b
    ensures q <= m
  {
  }

  /** A value at most m times b, divided by b, is at most m. */
  lemma DivAtMost(a: nat, b: nat, m: nat)
    requires 0 < b && a <= m * b
    ensures a / b <= m
  {
    var q := a / b;
    assert a == q * b + a % b;
    MulCancel(q, m, b);
  }

  lemma DivExact(m: nat, b: nat)
    requires 0 < b
    ensures b * m / b == m
  {
    var a := b * m;
    var q := a / b;
    assert a == q * b + a % b && 0 <= a % b < b;
    assert a == m * b;
    MulCancel(q, m, b);
    assert (q + 1) * b == q * b + b;
    MulCancelStrict(m, q + 1, b);
  }

  lemma MulCancelStrict(x: int, y: int, b: int)
    requires b > 0 && x * b < y * b
    ensures x < y
  {
  }

  /** What `print(f"...: {x}")` shows for an embedding: Python's `None`, or the list's text. */
  datatype PyEmbedding = PyNone | PyList(text: string)

  function Shown(e: PyEmbedding): string {
    match e
    case PyNone => "None"
    case PyList(t) => t
  }

  /** The lines a run prints, and its exit status. */
  datatype Run = Run(lines: seq<string>, exitCode: int)

  /** The usage line, written in pieces so that facts about its characters are proved piece by piece. */
  const Usage := "Usage: python " + "face_crop.py <image_path>"
  /** The no-face line, in pieces likewise. */
  const NoFace := "Face not detected" + " or error occurred" + " during processing."

  const OriginalEmbeddingTag := "Original embedding:"
  const ProcessedEmbeddingTag := "Processed embedding:"
  const OriginalPathTag := "Original path:"
  const ProcessedPathTag := "Processed path:"

  /** The four lines the registration handler looks for, in the order the script prints them. */
  function Report(originalPath: string, processedPath: string,
                  originalEmbedding: PyEmbedding, processedEmbedding: PyEmbedding): seq<string> {
    [ OriginalEmbeddingTag + " " + Shown(originalEmbedding),
      ProcessedEmbeddingTag + " " + Shown(processedEmbedding),
      OriginalPathTag + " " + originalPath,
      ProcessedPathTag + " " + processedPath ]
  }

  /**
   * The `__main__` block. `args` are the command-line arguments after the script name;
   * `processing` is what detect_and_process_face prints and `paths` what it returns;
   * `embeddingLog` is what the two generate_embedding calls print.
   */
  function Main(args: seq<string>, processing: seq<string>, paths: Option<(string, string)>,
                embeddingLog: seq<string>, originalEmbedding: PyEmbedding, processedEmbedding: PyEmbedding): (r: Run)
    ensures |args| != 1 ==> r == Run([Usage], 1)
    ensures r.exitCode == 0 || r.exitCode == 1
    ensures r.exitCode == 0 <==> |args| == 1 && paths.Some? && paths.value.0 != "" && paths.value.1 != ""
    ensures r.lines != []
    ensures r.exitCode == 0 ==>
      |r.lines| >= 4 && r.lines[|r.lines| - 4..] == Report(paths.value.0, paths.value.1, originalEmbedding, processedEmbedding)
    ensures r.exitCode == 1 && |args| == 1 ==> r.lines[..|r.lines| - 1] == [StartLine(args[0])] + processing
    ensures r.exitCode == 1 ==> r.lines[|r.lines| - 1] in {Usage, NoFace}
  {
    if |args| != 1 then Run([Usage], 1)
    else
      var start := [StartLine(args[0])] + processing;
      if paths.Some? && paths.value.0 != "" && paths.value.1 != "" then
        Run(start + ["Generating embeddings for detected faces..."] + embeddingLog
            + Report(paths.value.0, paths.value.1, originalEmbedding, processedEmbedding), 0)
      else
        Run(start + [NoFace], 1)
  }

  /** Neither closing line of a failed run holds a newline or the letter a report label starts with. */
  lemma UsageLacksO()
    ensures 'O' !in Usage && '\n' !in Usage
  {
    assert 'O' !in "Usage: python " && '\n' !in "Usage: python ";
    assert 'O' !in "face_crop.py <image_path>" && '\n' !in "face_crop.py <image_path>";
  }

  lemma NoFaceLacksO()
    ensures 'O' !in NoFace && '\n' !in NoFace
  {
    assert 'O' !in "Face not detected" && '\n' !in "Face not detected";
    assert 'O' !in " or error occurred" && '\n' !in " or error occurred";
    assert 'O' !in " during processing." && '\n' !in " during processing.";
  }

  function StartLine(imagePath: string): string {
    "Starting face detection and processing for: " + imagePath
  }

  /** What the run writes to stdout: every printed line followed by a newline. */
  function Stdout(lines: seq<string>): (s: string)
    ensures s == [] || s[|s| - 1] == '\n'
  {
    if lines == [] then "" else Stdout(lines[..|lines| - 1]) + lines[|lines| - 1] + "\n"
  }

  lemma {:induction false} StdoutAppend(a: seq<string>, b: seq<string>)
    ensures Stdout(a + b) == Stdout(a) + Stdout(b)
    decreases |b|
  {
    if b == [] {
      assert a + b == a;
    } else {
      var ab := a + b;
      var init := b[..|b| - 1];
      assert ab != [] && ab[|ab| - 1] == b[|b| - 1];
      assert ab[..|ab| - 1] == a + init;
      assert Stdout(ab) == Stdout(a + init) + b[|b| - 1] + "\n";
      assert Stdout(b) == Stdout(init) + b[|b| - 1] + "\n";
      StdoutAppend(a, init);
    }
  }
}
