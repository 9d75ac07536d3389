/**
 * The application state of the image viewer and the three things a frame
 * does with it: open a file, submit a recognition request, and show the
 * current image.
 *
 * The file dialog, the image decoder, the texture backend and the background
 * runtime are outside the model: what they return is passed in as a
 * parameter, and what is spawned on the runtime is recorded in a log.
 *
 * `AppState` and the functions over it specify what a frame does; the class
 * `MyApp` does it by updating its fields, and each of its methods is proved
 * against the matching function.
 */
module Viewer {
  import opened Pixels
  import opened Ocr

  datatype Option<T> = None | Some(value: T)

  /** An image as the decoder hands it over after conversion to 8-bit RGBA. */
  datatype Decoded = Decoded(width: U32, height: U32, rgba: seq<Byte>)

  /** The outcome of decoding the picked file. */
  datatype DecodeResult = Decodes(image: Decoded) | DecodeFails

  /**
   * A texture handle from the rendering backend. `id` tells handles apart
   * (the backend allocates a new one per upload); `name`, `width`, `height`
   * and `rgba` are what was handed to the upload: `rgba` is the annotated
   * RGBA buffer as passed in, not the texels the backend derives from it.
   */
  datatype Texture = Texture(id: nat, name: string, width: U32, height: U32, rgba: seq<Byte>)

  /** The name every uploaded texture is given. */
  const TextureName: string := "edited_image"

  /** The decoder's RGBA conversion always yields width * height pixels of four bytes. */
  predicate WellFormed(decoded: DecodeResult)
  {
    decoded.Decodes? ==> |decoded.image.rgba| == decoded.image.width * decoded.image.height * 4
  }

  /**
   * What happens in one frame: whether each button was clicked, what the
   * file dialog returned and what the decoder made of the picked file.
   */
  datatype Frame = Frame(openClicked: bool, picked: Option<string>, decoded: DecodeResult, ocrClicked: bool)

  /** The application's state, with every recognition request spawned so far, oldest first. */
  datatype AppState = AppState(
    imagePath: Option<string>,
    texture: Option<Texture>,
    nextTextureId: nat,
    submissions: seq<OcrRequest>)

  /**
   * A texture is only ever uploaded after a path was picked, its id was
   * handed out earlier, and its buffer has the size its dimensions say.
   */
  predicate Inv(st: AppState)
  {
    st.texture.Some? ==>
      st.imagePath.Some? &&
      st.texture.value.id < st.nextTextureId &&
      |st.texture.value.rgba| == st.texture.value.width * st.texture.value.height * 4
  }

  /** The state of a newly started application. */
  const Initial: AppState := AppState(None, None, 0, [])

  /**
   * The "Open file" branch. The picked path is recorded before the file is
   * decoded, so a file that fails to decode still becomes the current path
   * while the previous texture stays.
   */
  function Opened(st: AppState, picked: Option<string>, decoded: DecodeResult): (r: AppState)
    ensures picked.None? ==> r == st
    ensures picked.Some? ==> r.imagePath == picked && r.submissions == st.submissions
    ensures picked.Some? && decoded.DecodeFails? ==>
      r.texture == st.texture && r.nextTextureId == st.nextTextureId
    ensures picked.Some? && decoded.Decodes? ==>
      r.texture.Some? && r.texture.value.id == st.nextTextureId && r.nextTextureId > st.nextTextureId &&
      r.texture.value.name == TextureName &&
      r.texture.value.width == decoded.image.width && r.texture.value.height == decoded.image.height &&
      r.texture.value.rgba == Annotated(decoded.image.rgba, decoded.image.width, decoded.image.height)
    ensures Inv(st) && WellFormed(decoded) ==> Inv(r)
    ensures Inv(st) && picked.Some? && decoded.Decodes? && st.texture.Some? ==>
      r.texture.value.id != st.texture.value.id
  {
    match picked
    case None => st
    case Some(path) =>
      match decoded
      case DecodeFails => st.(imagePath := picked)
      case Decodes(img) =>
        var uploaded := Texture(st.nextTextureId, TextureName, img.width, img.height,
                                Annotated(img.rgba, img.width, img.height));
        st.(imagePath := picked, texture := Some(uploaded), nextTextureId := st.nextTextureId + 1)
  }

  /** The "Perform OCR" branch: one request for the current path, if there is one. */
  function Submitted(st: AppState): (r: AppState)
    ensures r.imagePath == st.imagePath && r.texture == st.texture && r.nextTextureId == st.nextTextureId
    ensures st.imagePath.None? ==> r.submissions == st.submissions
    ensures st.imagePath.Some? ==>
      |r.submissions| == |st.submissions| + 1 &&
      r.submissions[..|st.submissions|] == st.submissions &&
      r.submissions[|st.submissions|].path == st.imagePath.value &&
      r.submissions[|st.submissions|].options == RequestOptions
    ensures Inv(st) ==> Inv(r)
  {
    match st.imagePath
    case None => st
    case Some(path) => st.(submissions := st.submissions + [OcrRequest(path, RequestOptions)])
  }

  /** What the frame draws: the texture with the current path as its hover label, when both are present. */
  function View(imagePath: Option<string>, texture: Option<Texture>): (shown: Option<(Texture, string)>)
    ensures shown.Some? <==> texture.Some? && imagePath.Some?
    ensures shown.Some? ==> shown.value.0 == texture.value && shown.value.1 == imagePath.value
  {
    if texture.Some? && imagePath.Some? then Some((texture.value, imagePath.value)) else None
  }

  /**
   * One frame: the open-file branch, then the recognition branch, which sees
   * the path the open-file branch may just have set.
   */
  function Step(st: AppState, f: Frame): (r: AppState)
    ensures !f.openClicked && !f.ocrClicked ==> r == st
    ensures r.imagePath == if f.openClicked && f.picked.Some? then f.picked else st.imagePath
    ensures r.texture == if f.openClicked then Opened(st, f.picked, f.decoded).texture else st.texture
    ensures !f.ocrClicked || r.imagePath.None? ==> r.submissions == st.submissions
    ensures f.ocrClicked && r.imagePath.Some? ==>
      r.submissions == st.submissions + [OcrRequest(r.imagePath.value, RequestOptions)]
    ensures Inv(st) && WellFormed(f.decoded) ==> Inv(r)
  {
    var afterOpen := if f.openClicked then Opened(st, f.picked, f.decoded) else st;
    if f.ocrClicked then Submitted(afterOpen) else afterOpen
  }

  /** The state after a sequence of frames. */
  function Run(st: AppState, frames: seq<Frame>): (r: AppState)
    decreases |frames|
  {
    if frames == [] then st else Run(Step(st, frames[0]), frames[1..])
  }

  /** The decoder hands over well-formed images in every frame. */
  predicate AllWellFormed(frames: seq<Frame>)
  {
    forall k :: 0 <= k < |frames| ==> WellFormed(frames[k].decoded)
  }

  /** In some frame the user opened a file and the dialog returned `path`. */
  predicate Picked(frames: seq<Frame>, path: string)
  {
    exists k :: 0 <= k < |frames| && frames[k].openClicked && frames[k].picked == Some(path)
  }

  // ---------------------------------------------------------------------------
  // Properties over many frames

  /** The state invariant holds after any sequence of frames. */
  lemma {:induction false} RunKeepsInv(st: AppState, frames: seq<Frame>)
    requires Inv(st) && AllWellFormed(frames)
    ensures Inv(Run(st, frames))
    decreases |frames|
  {
    if frames != [] {
      assert WellFormed(frames[0].decoded);
      RunKeepsInv(Step(st, frames[0]), frames[1..]);
    }
  }

  /**
   * Nothing clears the path or the texture: once set, they stay set, and
   * the log of submitted requests only grows.
   */
  lemma {:induction false} RunNeverClears(st: AppState, frames: seq<Frame>)
    ensures st.imagePath.Some? ==> Run(st, frames).imagePath.Some?
    ensures st.texture.Some? ==> Run(st, frames).texture.Some?
    ensures st.submissions <= Run(st, frames).submissions
    decreases |frames|
  {
    if frames != [] {
      RunNeverClears(Step(st, frames[0]), frames[1..]);
    }
  }

  /**
   * Every request submitted during a sequence of frames is for a path the
   * user picked in one of those frames, or for the path current before
   * them, and carries the fixed options.
   */
  lemma {:induction false} RunSubmitsPickedPaths(st: AppState, frames: seq<Frame>)
    ensures st.submissions <= Run(st, frames).submissions
    ensures forall k :: |st.submissions| <= k < |Run(st, frames).submissions| ==>
      var req := Run(st, frames).submissions[k];
      req.options == RequestOptions &&
      (st.imagePath == Some(req.path) || Picked(frames, req.path))
    decreases |frames|
  {
    if frames != [] {
      var next := Step(st, frames[0]);
      var rest := frames[1..];
      RunSubmitsPickedPaths(next, rest);
      var final := Run(next, rest);
      assert final == Run(st, frames);
      forall k | |st.submissions| <= k < |final.submissions|
        ensures final.submissions[k].options == RequestOptions
        ensures st.imagePath == Some(final.submissions[k].path) || Picked(frames, final.submissions[k].path)
      {
        var p := final.submissions[k].path;
        if k < |next.submissions| {
          assert next.submissions[k] == final.submissions[k];
          if st.imagePath != Some(p) {
            assert frames[0].openClicked && frames[0].picked == Some(p);
          }
        } else if next.imagePath == Some(p) && next.imagePath != st.imagePath {
          assert frames[0].openClicked && frames[0].picked == Some(p);
        } else if next.imagePath != Some(p) {
          var j :| 0 <= j < |rest| && rest[j].openClicked && rest[j].picked == Some(p);
          assert frames[j + 1] == rest[j];
        }
      }
    }
  }

  // ---------------------------------------------------------------------------
  // The application object

  class MyApp {
    /** The file most recently picked in the dialog. */
    var imagePath: Option<string>
    /** The texture most recently uploaded. */
    var texture: Option<Texture>
    /** The id the backend gives the next uploaded texture. */
    var nextTextureId: nat
    /** Every recognition request spawned on the background runtime, oldest first. */
    ghost var submissions: seq<OcrRequest>

    ghost function State(): AppState
      reads this
    {
      AppState(imagePath, texture, nextTextureId, submissions)
    }

    ghost predicate Valid()
      reads this
    {
      Inv(State())
    }

    /** A new application: no file picked, no texture, nothing submitted. */
    constructor ()
      ensures Valid() && State() == Initial
    {
      imagePath := None;
      texture := None;
      nextTextureId := 0;
      submissions := [];
    }

    /**
     * The "Open file" button. `picked` is what the file dialog returned and
     * `decoded` what the decoder made of that file.
     */
    method OpenFile(picked: Option<string>, decoded: DecodeResult)
      requires Valid() && WellFormed(decoded)
      modifies this
      ensures Valid()
      ensures State() == Opened(old(State()), picked, decoded)
    {
      if picked.Some? {
        imagePath := picked;
        if decoded.Decodes? {
          var img := decoded.image;
          var rgba := Annotate(img.rgba, img.width, img.height);
          texture := Some(Texture(nextTextureId, TextureName, img.width, img.height, rgba));
          nextTextureId := nextTextureId + 1;
        }
      }
    }

    /** The "Perform OCR" button. */
    method PerformOcr()
      requires Valid()
      modifies this`submissions
      ensures Valid()
      ensures State() == Submitted(old(State()))
    {
      if imagePath.Some? {
        submissions := submissions + [OcrRequest(imagePath.value, RequestOptions)];
      }
    }

    /** What the frame draws. */
    function Render(): (shown: Option<(Texture, string)>)
      reads this
      ensures shown == View(imagePath, texture)
      ensures Valid() ==> (shown.Some? <==> texture.Some?)
    {
      View(imagePath, texture)
    }

    /** One frame: the open-file branch, then the recognition branch, then the drawing. */
    method Update(f: Frame) returns (shown: Option<(Texture, string)>)
      requires Valid() && WellFormed(f.decoded)
      modifies this
      ensures Valid()
      ensures State() == Step(old(State()), f)
      ensures shown == View(imagePath, texture)
    {
      if f.openClicked {
        OpenFile(f.picked, f.decoded);
      }
      if f.ocrClicked {
        PerformOcr();
      }
      shown := Render();
    }
  }

  /**
   * Opening a file that decodes and then one that does not leaves the first
   * file's annotated texture on screen, labelled with the second file's path.
   */
  method FailedOpenKeepsOldTexture() returns (shown: Option<(Texture, string)>)
    ensures shown.Some? && shown.value.1 == "b.png"
    ensures shown.value.0.width == 1 && shown.value.0.height == 1 && shown.value.0.rgba == Red
  {
    var app := new MyApp();
    var pixel: seq<Byte> := [0, 0, 0, 0];
    shown := app.Update(Frame(true, Some("a.png"), Decodes(Decoded(1, 1, pixel)), false));
    AnnotatedSmallImage(pixel, 1, 1);
    assert RedFill(1) == Red;
    shown := app.Update(Frame(true, Some("b.png"), DecodeFails, false));
  }
}
