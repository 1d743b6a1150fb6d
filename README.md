# ImageDataset: file pairing, crop geometry and mask binarisation

A Dafny model of the self-contained core of `utils/dataset.py`, the one-class dataset
loader of an image-segmentation training pipeline. The class lists an image directory,
keeps the entries whose name contains ".png", pairs each image with a mask file of the
label directory by a naming convention, and on each item either returns both as tensors
or runs `F_transform`: an undersize guard with a resize, a random crop with one window
shared by image and mask, random affine and flip steps, colour post-processing of the
image, and a binarisation of the mask tensor at 0.5.

The model has five modules:

- `Errors` (errors.dfy): the two exceptions the modelled code can raise, IndexError on a
  bad index and numpy's ValueError for `randint` on an empty range, and a `Result` type.
- `Names` (names.dfy): Python's substring test, the ".png" filter, `str.split` and
  `str.join` for a one-character separator, and the mask name derived from an image name.
- `Geometry` (geometry.dfy): image sizes, torchvision's integer-size `resize` on sizes,
  the undersize guard, `np.random.randint` with a supplied draw, the crop window of
  lines 56-68, and a corrected crop (see Findings).
- `Binarisation` (binarisation.dfy): the two in-place masked assignments of lines 88-89
  as two loops over an array of reals, proved equal to an entry-wise threshold.
- `Dataset` (dataset.dfy): the class `ImageDataset` with its constructor, `Length`
  (`__len__`), `FTransform` and `GetItem` (`__getitem__`), whose fields are set once in the
  constructor and never change.

Behaviour of the code a reader may not expect, which the model keeps:

- Only the image is resized by the undersize guard (line 60); the mask keeps its size and
  is cropped with the window computed for the resized image.
- The mask is binarised only on the transform path; with `transform` off the mask tensor
  is returned as `ToTensor` produced it.
- The transform path does not always produce a crop of the target size: it raises whenever
  the guarded image has a side equal to the target, which includes every undersize image
  when the target is square (the default 210 by 210).
- An image name without "_" is paired with the mask named exactly "segmentation_".

## Model

| member | source | states |
|---|---|---|
| Names.HasSubstring | utils/dataset.py:52 | a string contains only substrings no longer than itself, and every string contains the empty one |
| Names.HasSubstringIff | utils/dataset.py:52 | `sub in s` holds exactly when `sub` occurs at some position of `s` (both directions) |
| Names.IsPng | utils/dataset.py:52 | a name passes the filter exactly when ".png" occurs at some position of it |
| Names.PngAnywhere | utils/dataset.py:52 | a name containing ".png" anywhere, not only as a suffix, passes the filter |
| Names.PngNames | utils/dataset.py:52 | the filtered list is no longer than the listing and holds exactly the listing entries containing ".png" |
| Names.PngNamesAppend | utils/dataset.py:52 | the filter of a concatenated listing is the concatenation of the filters |
| Names.PngPositionsIncrease | utils/dataset.py:52 | the listing positions kept by the filter are in range and strictly increasing |
| Names.PngPositionsExact | utils/dataset.py:52 | a listing position is kept exactly when its entry contains ".png" |
| Names.PngNamesAtPositions | utils/dataset.py:52 | the k-th image name is the listing entry at the k-th kept position |
| Names.PngNamesIsPngSubsequence | utils/dataset.py:52 | the image list is the order-preserving subsequence of the listing at exactly the positions whose entry contains ".png" |
| Names.PngCount | utils/dataset.py:52-53 | the number of image names equals the number of listing positions whose entry contains ".png" |
| Names.FirstIndex | utils/dataset.py:100 | the position found holds the separator and no earlier position does |
| Names.Split | utils/dataset.py:100 | `split("_")` yields at least one piece, no piece contains "_", and there is one more piece than there are "_" |
| Names.Join | utils/dataset.py:100 | `"_".join` starts with the first piece and, when there are more pieces, puts the separator right after it |
| Names.JoinSeparatorCount | utils/dataset.py:100 | joining separator-free pieces puts exactly one separator fewer than there are pieces |
| Names.JoinSplit | utils/dataset.py:100 | joining the pieces of a split with the separator gives the string back |
| Names.SplitAfterPiece | utils/dataset.py:100 | splitting a separator-free piece, the separator and a rest gives that piece followed by the split of the rest |
| Names.SplitJoin | utils/dataset.py:100 | splitting a join of separator-free pieces gives the pieces back |
| Names.MaskName | utils/dataset.py:100 | the mask name is "segmentation_" followed by what comes after the image name's first "_", or exactly "segmentation_" when there is no "_" |
| Names.MaskNameDropsFirstToken | utils/dataset.py:100 | the mask of `token_rest`, where `token` has no "_", is "segmentation_" + `rest`, further underscores kept |
| Names.MaskNameWithoutUnderscore | utils/dataset.py:100 | a name `s` without "_" (such as "img.png") maps to exactly "segmentation_", with no extension, while `s_s` maps to "segmentation_" + `s` |
| Names.SameTailSameMask | utils/dataset.py:100 | two image names agreeing after their first "_" are paired with the same mask |
| Geometry.ScaledSide | utils/dataset.py:60 | the longer side after resize is the truncated `size * long / short`, never below `size`, and `size` for a square |
| Geometry.Resize | utils/dataset.py:60 | the shorter side becomes `size`, the longer one at least `size`, aspect ratio kept up to truncation |
| Geometry.Guard | utils/dataset.py:59-61 | after the guard the image is at least the target size; it is unchanged unless undersize, and after a resize both sides are at least `max(height, width)` with one side exactly that |
| Geometry.RandInt | utils/dataset.py:64-65 | `randint(high)` returns a value in `[0, high)` and raises exactly when `high <= 0` |
| Geometry.CropGeometry | utils/dataset.py:56-68 | succeeds exactly when the guarded image strictly exceeds the target on both sides, else raises for the first side that does not; the window has the target size, starts at the draws with `top < or_height - height` and `left < or_width - width`, lies inside the guarded image, is applied unchanged to the mask, and the mask keeps its size |
| Geometry.RejectedIffSideAtTarget | utils/dataset.py:59-65 | the crop fails exactly when the guarded image has a side equal to the target |
| Geometry.ExactFitIsRejected | utils/dataset.py:59-65 | an image exactly at the target size is not resized and is then rejected |
| Geometry.SquareTargetRejectsUndersize | utils/dataset.py:59-65 | with a square target every undersize image is rejected |
| Geometry.UndersizeMaskMissesWindow | utils/dataset.py:60-68 | a window of the target size never fits inside an undersize mask, which the guard does not resize |
| Geometry.MaskWindowMissesMask | utils/dataset.py:59-68 | a concrete successful crop whose window lies inside the resized image and outside the same-size mask |
| Geometry.CorrectedCropGeometry | utils/dataset.py:56-68 | the corrected crop never fails, any offset in `[0, or_height - height]` and `[0, or_width - width]` can be drawn, and for an image and mask of one size the shared window lies inside both |
| Binarisation.Binarised | utils/dataset.py:88-89 | same number of entries, every entry 0 or 1, 1 exactly for entries above 0.5 and 0 exactly for the others |
| Binarisation.BinarisedFixesExactlyBinary | utils/dataset.py:88-89 | binarisation leaves a mask unchanged exactly when all its entries are 0 or 1 |
| Binarisation.BinarisedIdempotent | utils/dataset.py:88-89 | binarising twice gives the same as binarising once |
| Binarisation.Binarise | utils/dataset.py:88-89 | the two in-place passes leave the array equal to the binarised old contents |
| Dataset.ListPosition | utils/dataset.py:97 | `image_names[idx]` reads position `idx` or `n + idx`, and raises IndexError exactly outside `[-n, n)` |
| Dataset.ImageDataset.constructor | utils/dataset.py:22-53 | the fields hold the arguments, with the defaults `transform=True`, `height=210` and `width=210`; the image list is the ".png" filter of the listing and the count is its length |
| Dataset.ImageDataset.Length | utils/dataset.py:93-94 | the length is the number of image names, the number of listing entries containing ".png" |
| Dataset.ImageDataset.FTransform | utils/dataset.py:55-91 | raises exactly when the crop does, leaving the mask tensor alone; otherwise image and mask come out at the target size and the mask tensor is binarised |
| Dataset.ImageDataset.GetItem | utils/dataset.py:96-110 | raises IndexError exactly outside `[-n, n)`; otherwise pairs the selected image with the label file named by the mask-name rule, and either keeps both sizes and the mask tensor (no transform) or gives the transform's outcome |
| Dataset.OneImageDirectory | utils/dataset.py:22-53 | a listing of one image `token_tail` and one file without ".png", built with the default target, gives a dataset of length 1 whose only image is that file |

`Dataset.OneImageDirectory`, `Dataset.OneImageFirstItem` and `Dataset.OneImageOtherIndices`
are a worked example of the class on a directory holding one image and one other file:
index 0 pairs the image `token_tail` with the mask `segmentation_tail`, index -1 reads the
same item, and index 1 raises IndexError.

## Left out

- Filesystem access (`os.listdir`, `Image.open`, `os.path.join`): the listing and the image and mask sizes are inputs; a file path is kept as its directory and name.
- Pixel contents: resampling in `resize`, the padding `crop` applies outside the image, `affine`, `hflip`, `ColorJitter`, `ToTensor` and `Normalize` are library code over floating point. Only sizes are modelled; `affine` and `hflip` keep the size.
- The `post_transform` argument and its default pipeline (the jitter ranges and the per-channel mean and standard deviation constants) are not modelled, since they only change pixel values of the image.
- The probabilities of the affine and flip branches (lines 71 and 79) and of the scale in [0.8, 1.2], and the distribution of `randint`: random values are supplied by the caller, and only the range of `randint` is modelled.
- `gaussian_blur` (lines 10-16) is not modelled: its only use, at line 44, is commented out.
- Floating-point detail of the threshold (NaN entries satisfy neither comparison at lines 88-89): mask entries are reals.
- Geometry.Resize: `int(size * long / short)` is computed by torchvision in floating point; the model uses exact integer division, which can differ when the quotient is within rounding error of an integer.
- Geometry.Decoded: image sizes are taken to be positive on both sides, as a decoded PNG's are; a zero side would make the resize divide by zero.
- Negative target heights and widths: `height` and `width` are natural numbers.
- Dataset.ImageDataset.GetItem: returns file names and tensor sizes, not tensor contents; the mask tensor is supplied as the entries `ToTensor` produced for the transformed mask, and its length is not tied to the mask size.
- The torch `Dataset` integration and multi-worker loading.

## Findings

| source | as written | input that shows it | evidently intended | confidence | as-written member | corrected member |
|---|---|---|---|---|---|---|
| utils/dataset.py:64-65 | offsets come from `randint(or_height - height)` and `randint(or_width - width)`, which never return their bound, so the window flush with the bottom or right edge is never chosen and an image exactly at the target size raises on `randint(0)` | a 210 by 210 image with the default 210 by 210 target | draw from `[0, or_height - height]` and `[0, or_width - width]`, as with `randint(n + 1)` | high; not executed | Geometry.ExactFitIsRejected | Geometry.CorrectedCropGeometry |
| utils/dataset.py:59-65 | the undersize resize makes the shorter side exactly `max(height, width)`, so with a square target that side equals the target and `randint(0)` raises for every undersize image | a 100 by 300 image (width by height) with the default 210 by 210 target: it becomes 210 by 630 and the left offset is drawn from `randint(0)` | undersize images are resized and cropped | high; not executed | Geometry.SquareTargetRejectsUndersize | Geometry.CorrectedCropGeometry |
| utils/dataset.py:60-68 | only the image is resized; the mask keeps its size and is cropped with the window of the resized image, so the pair is no longer aligned | a 50 by 100 image and mask with target height 200 and width 100 and draws 150 and 50: the image becomes 200 by 400 and the window starts 50 pixels below the bottom of the mask | the mask is resized with the image, so the shared window falls inside both | high; not executed | Geometry.MaskWindowMissesMask | Geometry.CorrectedCropGeometry |

`Dataset.ImageDataset` follows the code as written, so that its contract records when
`__getitem__` raises; `Geometry.CorrectedCropGeometry` is the crop the findings call for.
