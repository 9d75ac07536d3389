# Image viewer with annotation and background text recognition — verified model

The application is a small desktop viewer. It has an "Open file" button, which picks an image, decodes it to RGBA, paints a red marker over its top-left corner and uploads it as a texture. It has a "Perform OCR" button, which sends the picked file to a text-recognition engine on a background runtime. Every frame it draws the texture, with the file's path as hover text.

The model has three modules:

- `Pixels` (`pixels.dfy`) covers the annotation. A decoded image is a row-major RGBA buffer of bytes, and pixel `(x, y)` starts at byte `(y * width + x) * 4`. `Annotated` is the specification: inside the top-left `min(50, width) x min(50, height)` rectangle every byte takes the matching channel of opaque red `255, 0, 0, 255`, and every other byte is kept. `Annotate` copies the decoded pixels into a fresh `array<Byte>`, as `to_rgba8` does. It then runs the nested `for y` / `for x` loop on that array in place, one `PutPixel` per pixel. It is proved to leave exactly `Annotated(pixels)`. Lemmas then state what that buffer is, pixel by pixel.
- `Ocr` (`ocr.dfy`) holds the fixed request configuration: English only, a 30-second timeout.
- `Viewer` (`viewer.dfy`) holds the application state. The pure layer comes first:
  - `AppState` is a value holding the path, the texture, the texture counter and the log of submitted requests.
  - `Opened` and `Submitted` specify the two button branches, and `View` specifies the drawing.
  - `Step` is one frame and `Run` is a sequence of frames. Lemmas over `Run` state what holds across any number of frames.

  The class `MyApp` has the source's fields `imagePath` and `texture` and updates them in place. Its `OpenFile`, `PerformOcr` and `Update` are each proved to leave `State()` equal to `Opened`, `Submitted` or `Step` of the old state, and `Render` is proved equal to `View`. The file dialog, the decoder, the texture backend and the runtime are external:
  - The dialog's answer and the decoder's result are parameters.
  - A texture handle is a value whose `id` comes from a counter, which stands in for the backend allocating a new handle.
  - A spawned recognition task is an entry appended to the ghost log `submissions`.

The model follows the code on one point where a "no partial update" reading of the application would differ. When a file is picked but does not decode, the path is still recorded, because the assignment comes before the decode. The previous texture stays. `FailedOpenKeepsOldTexture` shows the result: the old image is drawn, labelled with the new path.

## Model

| member | source | states |
|---|---|---|
| `Ocr.RequestIsEnglishWithTimeout` | src/main.rs:30-33 | every request built with the fixed options (`RequestOptions`) asks for English alone and has a 30 s timeout |
| `Pixels.Clip` | src/main.rs:72-73 | the marker's extent along a dimension is the smaller of 50 and that dimension |
| `Pixels.Annotated` | src/main.rs:72-76 | annotation keeps the buffer's length |
| `Pixels.OffsetInBounds` | src/main.rs:72-74 | every channel of a pixel `(x, y)` with `x < width`, `y < height` lies inside the `width * height * 4` buffer, so the clipped loops never index out of bounds |
| `Pixels.OffsetDecodes` | src/main.rs:74 | the byte `put_pixel` writes for channel `c` of `(x, y)` decodes back to column `x`, row `y`, channel `c` |
| `Pixels.ByteHasPixel` | src/main.rs:79-81 | every byte of a `width * height * 4` buffer is channel `i % 4` of the pixel at its `Column` and `Row`, and that pixel lies inside the image |
| `Pixels.AnnotatedPaintsMarker` | src/main.rs:72-76 | after annotation, all four bytes of every pixel with `x < min(50, width)` and `y < min(50, height)` are `255, 0, 0, 255` |
| `Pixels.AnnotatedKeepsOutside` | src/main.rs:72-76 | after annotation, every byte of every pixel of the image outside that rectangle equals its value before |
| `Pixels.AnnotatedIdempotent` | src/main.rs:72-76 | annotating twice gives the same buffer as annotating once |
| `Pixels.AnnotatedSmallImage` | src/main.rs:72-73 | an image at most 50 x 50 pixels becomes entirely the marker colour, with no error for small sizes |
| `Pixels.PutPixel` | src/main.rs:74 | writing a pixel inside the image changes exactly its four bytes, to the given colour |
| `Pixels.Annotate` | src/main.rs:68-76 | the nested loops, run in place on a fresh copy of the decoded pixels, leave it equal to `Annotated(pixels)`. This holds for any width and height, including those under 50 |
| `Viewer.Opened` | src/main.rs:62-92 | no pick leaves the state unchanged. A pick always sets the path and submits nothing. A failed decode keeps the old texture. A successful decode replaces it with a new handle named `edited_image`, with an id different from the old handle's. The handle records the buffer handed to the upload, which is the annotated pixels at the decoded width and height. The state invariant is kept: a texture implies a path, and its buffer is `width * height * 4` bytes |
| `Viewer.Submitted` | src/main.rs:94-100 | with no path nothing is submitted. With path `p`, exactly one request for `p` with English and a 30 s timeout is appended to the log. Path and texture are unchanged |
| `Viewer.View` | src/main.rs:103-108 | an image is shown iff both texture and path are present, and then it is that texture with the current path as label |
| `Viewer.Step` | src/main.rs:59-101 | one frame. With no click the state is unchanged. The path is the newly picked one if the open button was clicked and the dialog returned a path. The texture is as `Opened` leaves it if the open button was clicked. With the OCR button clicked and a path present after the open branch, exactly one request for that path is appended; otherwise the log is unchanged. The invariant is kept |
| `Viewer.RunKeepsInv` | src/main.rs:59-110 | after any sequence of frames the state invariant still holds |
| `Viewer.RunNeverClears` | src/main.rs:59-110 | no sequence of frames clears the path or the texture once set, and the request log only grows |
| `Viewer.RunSubmitsPickedPaths` | src/main.rs:62-100 | every request submitted over a sequence of frames is for a path the dialog returned in one of those frames, or for the path current before them, and it carries the fixed options |
| `Viewer.MyApp.constructor` | src/main.rs:17-23 | a new application has no path, no texture and no submissions, and satisfies the state invariant |
| `Viewer.MyApp.OpenFile` | src/main.rs:62-92 | updating the fields in place leaves the state equal to `Opened` of the old state, and keeps the invariant |
| `Viewer.MyApp.PerformOcr` | src/main.rs:94-101 | changes only the request log, leaving the state equal to `Submitted` of the old state |
| `Viewer.MyApp.Render` | src/main.rs:103-108 | the drawn output is `View` of the current fields and changes nothing. Under the state invariant, an image is shown iff a texture is present |
| `Viewer.MyApp.Update` | src/main.rs:59-110 | one frame leaves the state equal to `Step` of the old state: the open branch, then the recognition branch on the possibly new path. It returns what `View` draws afterwards |
| `Viewer.FailedOpenKeepsOldTexture` | src/main.rs:62-108 | opening a 1x1 image and then a file that fails to decode draws the first image, all red, labelled with the second path |

## Left out

- `perform_ocr`'s body (src/main.rs:28-49) is left out. It is an asynchronous call into an external recognition engine, followed by console output. A panic if the engine cannot be built is also left out. Only the request it is called with is modelled.
- The confidence threshold `0.8` (src/main.rs:32) and the two-decimal formatting of the extracted number are floating-point details with no logic around them, so they are left out.
- The runtime `Handle` field, `spawn` and the concurrency between the render thread and recognition tasks are left out. A spawn is modelled only as one entry appended to `submissions`, in call order.
- The file dialog and `image::open` are external calls. Their results (an optional path, a decoded image or a failure) are parameters.
- `to_rgba8` is modelled only as the fresh copy of the decoded pixels that `Annotate` paints.
- `ColorImage::from_rgba_unmultiplied`, `load_texture` and `TextureOptions` are not modelled as calls. `Opened` and `MyApp.OpenFile` build the `Texture` value themselves. Its `id` comes from the model's own counter, and its `rgba` is the annotated buffer handed to the upload.
- The conversion of each pixel to a premultiplied-alpha colour in `from_rgba_unmultiplied` (src/main.rs:79-82) is left out. The texels the backend holds differ from `Texture.rgba` wherever alpha is below 255.
- `ui.image` and the hover text are left out as drawing calls. The drawn output is the value `Render` returns.
- The path is one `string` in the model. The source keeps two forms of it. It records `path.display().to_string()` (src/main.rs:64), a lossy conversion that is later sent to OCR. The decode at src/main.rs:67 opens the original `PathBuf`. The model does not capture paths whose display form differs from the path itself.
- The decoder's guarantee that an RGBA image carries `width * height * 4` bytes is taken as a precondition (`WellFormed`). It is not derived from a model of the decoder.
- `main` (src/main.rs:122-141) and the logging calls are left out. They are window setup, logger initialisation and the event loop.
