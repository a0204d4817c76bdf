# image-to-icon converter: a Dafny model

The converter reads one PNG or JPEG file and writes a Windows icon file holding six
square frames of 16, 32, 48, 64, 128 and 256 pixels. For each frame it resizes the
image so that the longer side equals the frame edge, keeping the aspect ratio. It then
centres the result on a fully transparent square canvas ("letterboxing"). The input path
must end in `.png`, `.jpg` or `.jpeg`. Without `-o`, the output is written to the
input's base name with its extension replaced by `.ico`.

The model covers the program's one source file, `main.go`, in seven modules:

- `Pixels` (`pixels.dfy`): 8-bit RGBA samples, the transparent zero pixel, and immutable
  pixel grids (`Image`) for what the resampling library returns.
- `Geometry` (`geometry.dfy`): the integer arithmetic of `resizeWithAspectRatio`. This
  covers the scaled dimensions, written as natural-number floor division, and the
  centring offsets, written with Go's truncating `/`. It also gives the rectangle the
  image is placed in.
- `Canvas` (`canvas.dfy`): the mutable canvas as an `array2<Pixel>`.
  `image.NewRGBA` becomes `NewCanvas`. `draw.Draw(..., draw.Src)` becomes `DrawSrc`: nested
  loops that overwrite the clipped rectangle in place.
- `Letterbox` (`letterbox.dfy`): `resizeWithAspectRatio` itself. The method is proved
  against `LetterboxPixel`, a specification of every canvas pixel. Next to it are lemmas
  on square sources, very flat sources, and where visible pixels can be.
- `IconSet` (`iconset.dfy`): the loop of `main` over the size list, which builds the
  sequence of canvases.
- `Paths` (`paths.dfy`): `filepath.Ext` and `filepath.Base` for `/`-separated paths.
- `Cli` (`cli.dfy`): the checks on `-i`, the default output name and the chosen output
  path.

The resampling call `resize.Resize(w, h, img, resize.Lanczos3)` is a function-typed
parameter `resample`. The predicate `Honours` states the one thing the model needs from
it: it returns a well-formed grid, and when both requested dimensions are positive the
grid is exactly `w x h`.

Two details of `main.go` shape the model:

- The shorter side is rounded down: `uint(...)` truncates a non-negative quotient.
- The default name takes the extension of the base name, not of the whole path.
  `AcceptedDefaultOutputName` proves that it equals the whole input's extension for
  every accepted input.

## Model

| member | source | states |
|---|---|---|
| Geometry.ScaleShorter | main.go:28-32 | `uint(float64(a)*float64(size)/float64(b))` taken on naturals with `a <= b`: the result is at most `size`, and it is the floor of the exact ratio (`q*b <= a*size < (q+1)*b`). |
| Geometry.ScaledDims | main.go:24-33 | Landscape (`width > height`): the new width is `size`, and the new height is at most `size` and is the floor of `height*size/width`. Portrait or square: the new height is `size`, and the new width is at most `size` and is the floor of `width*size/height`. |
| Geometry.GoHalf | main.go:42-43 | Go's `/ 2` on `int` truncates toward zero. For a non-negative `a` the result `q` satisfies `0 <= q` and `2q <= a <= 2q+1`. For a negative `a` it satisfies `2q-1 <= a <= 2q`. |
| Geometry.Offset | main.go:42-43 | For a side no longer than the canvas, the offset `(size - dim)/2` is non-negative and the side fits after it. The margin after the side equals the margin before it or is one pixel larger, so the image is centred. |
| Geometry.Placement | main.go:42-46 | The drawn rectangle `[x, x+newWidth) x [y, y+newHeight)` lies inside `[0,size) x [0,size)` and has exactly the scaled dimensions. It spans the full canvas along the longer source side. It is centred: on each axis the margin after the image equals the margin before it or is one pixel larger. |
| Geometry.SquarePlacement | main.go:29-43 | A square source is scaled to `size x size` and placed at offset (0, 0). |
| Canvas.NewCanvas | main.go:39 | A fresh `size x size` canvas whose every pixel is the transparent zero pixel. |
| Canvas.DrawSrc | main.go:46 | `draw.Src` copy: every canvas pixel inside the clipped rectangle becomes the source pixel at the same offset from the rectangle's corner, and every other pixel keeps its old value. |
| Letterbox.ResizeWithAspectRatio | main.go:18-49 | The returned canvas is newly allocated and `size x size`. Every pixel inside the placed rectangle is the resized pixel `(row - y, col - x)`, and every pixel outside it is transparent. |
| Letterbox.VisibleInsidePlacement | main.go:39-46 | A non-transparent canvas pixel lies inside the placed rectangle, and therefore inside the canvas. |
| Letterbox.SquareFillsCanvas | main.go:29-46 | For a square source, every canvas pixel is the pixel at the same position of the image resized to `size x size`. There is no transparent border. |
| Letterbox.FlatSourceLeavesCanvasEmpty | main.go:25-46 | A landscape source with `width > height*size` gets a scaled height of 0, so every canvas pixel stays transparent. |
| Letterbox.TallSourceLeavesCanvasEmpty | main.go:25-46 | The portrait counterpart: a source with `height > width*size` gets a scaled width of 0, so every canvas pixel stays transparent. |
| IconSet.BuildIconSet | main.go:101-108 | Exactly 6 newly allocated canvases, whatever the input's size. Entry `k` is `Sizes[k] x Sizes[k]` for `Sizes = [16,32,48,64,128,256]`, in that order, and holds the letterbox of the input for that size. |
| Paths.Ext | main.go:64 | The result is a suffix of the path. It is either empty or a `.` followed by characters that are neither `.` nor `/`. It is empty exactly when the final path element has no `.`. |
| Paths.Base | main.go:86 | `.` for the empty path. For a non-empty path the result is `/` exactly when the path consists of slashes only. The result is never empty, and it contains `/` only when it is `/` itself. |
| Paths.BaseOfElement | main.go:86 | `filepath.Base` by its meaning: a non-empty run without `/` that starts the path or follows a `/`, with only `/` after it, is the base name. For example, the base name of `a/b/` is `b`. |
| Paths.ExtSplits | main.go:87-88 | `p[:len(p)-len(Ext(p))]` followed by `Ext(p)` gives `p` again, so the slice at main.go:88 removes exactly the extension. |
| Paths.LastElementAfterSlash | main.go:86 | The final element of `dir/name` is `name` when `name` has no `/`. |
| Cli.ExtMatchesSuffix | main.go:64-65 | For an extension-shaped `x`, `Ext(p) == x` holds if and only if `p` ends with `x`. |
| Cli.CheckInput | main.go:58-68 | An empty `-i` is `MissingInput`, and this holds in both directions. Otherwise the input passes if and only if its `Ext` is `.png`, `.jpg` or `.jpeg`, which is equivalent to the path ending in one of them. Every other input is refused. |
| Cli.RefusedScenarios | main.go:58-68 | The match is case-sensitive: `icon.gif`, `icon.PNG` and `archive.png.zip` are refused as unsupported, and an empty input is refused as missing. |
| Cli.DefaultOutputName | main.go:86-88 | The default name ends with `.ico`. Its stem followed by `Ext(Base(input))` gives back `Base(input)`. |
| Cli.DefaultNameSlash | main.go:86-88 | The default name contains `/` exactly when `Base(input)` is `/`, and that holds exactly when the input is non-empty and consists of slashes only. |
| Cli.OutputName | main.go:85-89 | A non-empty `-o` is used unchanged. An empty one yields the default name. |
| Cli.AcceptedDefaultOutputName | main.go:64-89 | For an accepted input, the default name has no `/` and ends with `.ico`. It equals `Base(input)` with the input's own `Ext` removed, followed by `.ico`. |
| Cli.NameToIco | main.go:85-89 | For `stem + x`, with no `/` in `stem` and a supported `x`, the input is accepted and its default output name is `stem + ".ico"`. For example, `photo.jpg` becomes `photo.ico`. |
| Cli.PathToIco | main.go:85-89 | For `dir/stem + x`, the input is accepted and its default output name is `stem + ".ico"`: the directory is dropped. |
| Cli.PhotoScenario | main.go:64-89 | `photo.jpg` is accepted, and with `-o out/app.ico` that path is used unchanged. |

## Left out

- Lanczos3 resampling (`resize.Resize`, main.go:36) is an external library doing floating-point convolution. It is only a parameter with its dimension contract (`Letterbox.Honours`). The library's rule that a zero dimension preserves the aspect ratio is not modelled. When a computed dimension is 0 the draw rectangle is empty and the resampled grid is never read (`FlatSourceLeavesCanvasEmpty` for wide sources, `TallSourceLeavesCanvasEmpty` for tall ones).
- The float64 arithmetic of main.go:28 and main.go:32 becomes natural-number floor division. The two agree while the products stay exactly representable in a float64, which covers every realistic image size.
- Geometry.ScaledDims: requires that the source has at least one positive side. For a 0x0 image the source computes `0/0` in floating point, which decoded images never produce.
- Image decoding (`image.Decode`, main.go:78) and icon serialisation (`ico.EncodeAll`, main.go:110) are external codecs. The decoded image is an `Image` value with bounds starting at (0, 0). The encoder is not modelled.
- Colour-model conversion inside `draw.Draw` is left out: source pixels are taken to be 8-bit RGBA already. The resampled image's bounds are assumed to start at (0, 0), which is what the library returns.
- Flag parsing, `os.Open`/`os.Create`, `defer Close`, `os.Exit`, exit codes and the messages on standard output and standard error (main.go:53-97, 111-116) are I/O plumbing and are left out. The order of the two checks that happen before any I/O, a missing input first and an unsupported extension second, is modelled in `CheckInput`.
- Go's full `path/filepath` semantics are not modelled. The model assumes `/` is the only separator and has no volume names. `Base` does include the empty-path (`.`) and all-slash (`/`) results and the stripping of trailing slashes.
- Go's `int`/`uint` widths are not modelled: every value involved is at most 256 or an image dimension, far from overflow.
