/**
 * The `ImageDataset` class of utils/dataset.py: construction from a directory listing,
 * `__len__`, `__getitem__` and the geometric part of `F_transform`. Directory contents,
 * image sizes, random draws and the mask tensor are supplied by the caller.
 */
module Dataset {
  import opened Errors
  import Names
  import Geometry
  import Binarisation

  /** `os.path.join(dir, name)`, kept as its two parts. */
  datatype FilePath = FilePath(dir: string, name: string)

  /** What one item yields: the two files it reads and the spatial size of the two tensors. */
  datatype Sample = Sample(imageFile: FilePath, maskFile: FilePath, imageSize: Geometry.Size, maskSize: Geometry.Size)

  /**
   * The position `xs[idx]` reads in a Python list of length `n`: negative indices count
   * from the end, and anything outside `[-n, n)` raises IndexError.
   */
  function ListPosition(n: nat, idx: int): (r: Result<nat>)
    ensures r.Success? <==> -(n as int) <= idx < n
    ensures r.Success? ==> r.value < n && (r.value == idx || r.value == n + idx)
    ensures r.Failure? ==> r.error == IndexError(idx)
  {
    if 0 <= idx < n then Success(idx)
    else if -(n as int) <= idx < 0 then Success(n + idx)
    else Failure(IndexError(idx))
  }

  class ImageDataset {
    const imgDir: string
    const labelDir: string
    /** Whether `__getitem__` runs `F_transform`. */
    const transform: bool
    /** Target size of the crop. */
    const height: nat
    const width: nat
    /** What `os.listdir(img_dir)` returned when the dataset was built. */
    ghost const listing: seq<string>
    const imageNames: seq<string>
    const nImages: nat

    /** The image list is the filtered listing, and the count is its length. */
    ghost predicate Valid()
    {
      imageNames == Names.PngNames(listing) && nImages == |imageNames|
    }

    /**
     * `__init__` (lines 22-53), given the directory listing in place of `os.listdir`, with
     * the same defaults: the transform on and a 210 by 210 target.
     */
    constructor (imgDir: string, labelDir: string, listing: seq<string>,
                 transform: bool := true, height: nat := 210, width: nat := 210)
      ensures Valid()
      ensures this.imgDir == imgDir && this.labelDir == labelDir && this.transform == transform
      ensures this.height == height && this.width == width && this.listing == listing
      ensures imageNames == Names.PngNames(listing)
    {
      this.imgDir := imgDir;
      this.labelDir := labelDir;
      this.transform := transform;
      this.width := width;
      this.height := height;
      this.listing := listing;
      this.imageNames := Names.PngNames(listing);
      this.nImages := |Names.PngNames(listing)|;
    }

    /** `__len__`: the number of listing entries whose name contains ".png". */
    function Length(): (n: nat)
      requires Valid()
      ensures n == |imageNames|
      ensures n == |Names.PngIndexSet(listing)|
    {
      Names.PngCount(listing);
      nImages
    }

    /**
     * `F_transform` (lines 55-91) on sizes. The crop geometry decides whether it raises;
     * if it does not, image and mask both come out at the target size (the affine and
     * flip steps keep the size) and the mask tensor, supplied as the entries that
     * `ToTensor` produced, is binarised in place. If it raises, the tensor is untouched.
     */
    method FTransform(image: Geometry.Size, mask: Geometry.Size, topDraw: nat, leftDraw: nat, maskTensor: array<real>)
      returns (r: Result<(Geometry.Size, Geometry.Size)>)
      requires Geometry.Decoded(image)
      requires Geometry.DrawFits(topDraw, Geometry.Guard(image, height, width).height - height)
      requires Geometry.DrawFits(leftDraw, Geometry.Guard(image, height, width).width - width)
      modifies maskTensor
      ensures r.Success? <==> Geometry.StrictlyLarger(Geometry.Guard(image, height, width), height, width)
      ensures r.Success? ==>
        && r.value == (Geometry.Size(width, height), Geometry.Size(width, height))
        && maskTensor[..] == Binarisation.Binarised(old(maskTensor[..]))
      ensures r.Failure? ==> r.error.EmptyRange? && maskTensor[..] == old(maskTensor[..])
    {
      var crop := Geometry.CropGeometry(image, mask, height, width, topDraw, leftDraw);
      if crop.Failure? {
        return Failure(crop.error);
      }
      var imageOut := Geometry.CroppedSize(crop.value.imageWindow);
      var maskOut := Geometry.CroppedSize(crop.value.maskWindow);
      Binarisation.Binarise(maskTensor);
      r := Success((imageOut, maskOut));
    }

    /**
     * `__getitem__` (lines 96-110). The index selects an image name Python-style; the
     * mask is the file of the label directory named after it. With the transform the
     * item goes through `F_transform`; without it both keep their own sizes and the
     * mask tensor is not binarised.
     */
    method GetItem(idx: int, imageSize: Geometry.Size, maskSize: Geometry.Size, topDraw: nat, leftDraw: nat, maskTensor: array<real>)
      returns (r: Result<Sample>)
      requires Valid()
      requires transform ==> Geometry.Decoded(imageSize)
      requires transform ==> Geometry.DrawFits(topDraw, Geometry.Guard(imageSize, height, width).height - height)
      requires transform ==> Geometry.DrawFits(leftDraw, Geometry.Guard(imageSize, height, width).width - width)
      modifies maskTensor
      ensures !(-(nImages as int) <= idx < nImages) ==> r == Failure(IndexError(idx)) && maskTensor[..] == old(maskTensor[..])
      ensures -(nImages as int) <= idx < nImages ==>
        var name := imageNames[ListPosition(nImages, idx).value];
        var files := (FilePath(imgDir, name), FilePath(labelDir, Names.MaskName(name)));
        && (!transform ==>
              r == Success(Sample(files.0, files.1, imageSize, maskSize))
              && maskTensor[..] == old(maskTensor[..]))
        && (transform ==>
              && (r.Success? <==> Geometry.StrictlyLarger(Geometry.Guard(imageSize, height, width), height, width))
              && (r.Success? ==>
                    && r.value == Sample(files.0, files.1, Geometry.Size(width, height), Geometry.Size(width, height))
                    && maskTensor[..] == Binarisation.Binarised(old(maskTensor[..])))
              && (r.Failure? ==> r.error.EmptyRange? && maskTensor[..] == old(maskTensor[..])))
    {
      var position := ListPosition(nImages, idx);
      if position.Failure? {
        return Failure(position.error);
      }
      var name := imageNames[position.value];
      var imageFile := FilePath(imgDir, name);
      var maskFile := FilePath(labelDir, Names.MaskName(name));
      if transform {
        var sizes := FTransform(imageSize, maskSize, topDraw, leftDraw, maskTensor);
        if sizes.Failure? {
          return Failure(sizes.error);
        }
        r := Success(Sample(imageFile, maskFile, sizes.value.0, sizes.value.1));
      } else {
        r := Success(Sample(imageFile, maskFile, imageSize, maskSize));
      }
    }
  }

  /**
   * A listing holding one image, `token_tail` (such as "img_001.png"), and one other file
   * gives a dataset of one item, whose only image is that file; the target size is left at
   * its default.
   */
  method OneImageDirectory(token: string, tail: string, other: string) returns (data: ImageDataset)
    requires '_' !in token
    requires Names.IsPng(token + ['_'] + tail)
    requires !Names.IsPng(other)
    ensures data.Valid() && !data.transform && data.imgDir == "images" && data.labelDir == "labels"
    ensures data.height == 210 && data.width == 210
    ensures data.Length() == 1 && data.imageNames == [token + ['_'] + tail]
  {
    var image := token + ['_'] + tail;
    data := new ImageDataset("images", "labels", [image, other], false);
    assert [image, other][1..] == [other];
  }

  /** On that dataset, index 0 gives the image paired with the mask `segmentation_tail`. */
  method OneImageFirstItem(token: string, tail: string, other: string, maskTensor: array<real>)
    requires '_' !in token
    requires Names.IsPng(token + ['_'] + tail)
    requires !Names.IsPng(other)
    modifies maskTensor
  {
    var data := OneImageDirectory(token, tail, other);
    var size := Geometry.Size(640, 480);
    var first := data.GetItem(0, size, size, 0, 0, maskTensor);
    Names.MaskNameDropsFirstToken(token, tail);
    assert first.Success? && first.value.maskFile == FilePath("labels", Names.MaskPrefix + tail);
  }

  /** On that dataset, index -1 reads the same item as index 0, and index 1 raises IndexError. */
  method OneImageOtherIndices(token: string, tail: string, other: string, maskTensor: array<real>)
    requires '_' !in token
    requires Names.IsPng(token + ['_'] + tail)
    requires !Names.IsPng(other)
    modifies maskTensor
  {
    var data := OneImageDirectory(token, tail, other);
    var size := Geometry.Size(640, 480);
    var first := data.GetItem(0, size, size, 0, 0, maskTensor);
    var last := data.GetItem(-1, size, size, 0, 0, maskTensor);
    assert last == first;
    var missing := data.GetItem(1, size, size, 0, 0, maskTensor);
    assert missing == Failure(IndexError(1));
  }
}
