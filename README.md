# Predict: tensor builder and result formatter

`PredictFunction.Run` in `Predict.cs` is an HTTP-triggered function. It
decodes an uploaded image, crop-resizes it to 224 × 224, turns it into an
input tensor, runs an image-classification model, and returns the ten most
confident (label, confidence) pairs. Two parts of it contain real logic, and
this project models and verifies both.

- **Tensor builder** (module `Tensor`, `tensor.dfy`). The code allocates a
  dense tensor of shape [1, H, W, 3], where H and W are the image's height
  and width. It then walks the rows top to bottom and the pixels left to
  right, writing `(R - 127) / 128`, `(G - 127) / 128` and `(B - 127) / 128`
  into cells [0, y, x, 0..2].
  - The model is a method, `BuildInput`, with the same loops over an
    `array<real>` flat buffer. The outer loop is over y. The inner loop over
    x is the method `FillRow`. Each cell is written through the row-major
    index map `NhwcOffset`.
  - Its specification is `GridValues`: the image flattened row by row and
    pixel by pixel, three normalised channels per pixel.
  - Lemmas prove the layout: cell [0, y, x, c] is channel c of pixel (x, y),
    and the index map is a bijection onto the buffer. The contracts of the
    value functions bound every value to [-127/128, 1].
  - Lemmas also prove normalisation exact and invertible.
- **Result formatter** (module `Formatter`, `formatter.dfy`). The code pairs
  score i with `Labels[i]`, applies `OrderByDescending` on the confidence (a
  stable sort) and keeps the first ten entries.
  - The model is a chain of pure functions. `Labelled` does the pairing.
    `OrderByDescending` reads the entries off in the order given by
    `Ranking`, and `Take` and `TopPredictions` keep the first ten.
  - `Ranking` is an insertion sort of the indices 0 .. n-1 under the strict
    total order `Before`. An index goes first if its score is higher, or if
    the scores tie and its index is smaller.
  - `RankingUnique` proves that any sequence listing every index once in
    `Before` order is `Ranking`. So the model is *the* stable descending
    sort, not one sort among several.
  - `Format` adds the failure of the label lookup when there are more scores
    than labels.

Confidences and tensor values are `real`. Every tensor value is an integer in
[-127, 128] divided by 128. The float32 computation in the source is
therefore exact (`NormalizeIsExactBinary32`).

## Model

| member | source | states |
|---|---|---|
| `Tensor.Normalize` | Predict.cs:50-52 | a normalised channel lies in [-127/128, 1] and is 0 exactly when the channel byte is 127 |
| `Tensor.DenormalizeNormalize` | Predict.cs:50-52 | 128·t + 127 recovers the byte v from t = Normalize(v) |
| `Tensor.NormalizeInjective` | Predict.cs:50-52 | equal normalised values come from equal channel bytes, and conversely |
| `Tensor.NormalizeIsExactBinary32` | Predict.cs:50-52 | 128·Normalize(v) is an integer in [-127, 128], so Normalize(v) = m/2^7 is exactly representable as a 32-bit float |
| `Tensor.ElementCount4` | Predict.cs:43 | a dense tensor with dimensions [d0, d1, d2, d3] has d0·d1·d2·d3 cells |
| `Tensor.NhwcOffset` | Predict.cs:50-52 | the row-major position of cell [n, y, x, c]; every in-shape index maps to a position inside the flat buffer |
| `Tensor.NhwcOffsetInjective` | Predict.cs:44-53 | distinct in-shape indices map to distinct positions, so no cell is written twice |
| `Tensor.Unflatten` | Predict.cs:43-54 | every buffer position is the offset of some in-shape index, so the loops cover every cell |
| `Tensor.PixelValues` | Predict.cs:50-52 | a pixel contributes 3 values, each in [-127/128, 1] |
| `Tensor.RowValues` | Predict.cs:47-53 | a row of w pixels contributes 3·w values, each in [-127/128, 1] |
| `Tensor.GridValues` | Predict.cs:44-53 | every value of the flattened image lies in [-127/128, 1] |
| `Tensor.RowValuesAt` | Predict.cs:47-53 | value 3·x + c of a row is channel c of pixel x, normalised (R, G, B order, channel fastest) |
| `Tensor.GridValuesLength` | Predict.cs:43-54 | an H-row grid of w-pixel rows flattens to H·w·3 values |
| `Tensor.GridValuesAt` | Predict.cs:44-53 | value (y·w + x)·3 + c of the flattened grid is channel c of pixel (x, y), normalised |
| `Tensor.InputLayout` | Predict.cs:43-54 | the expected tensor has ElementCount([1, H, W, 3]) cells, and cell [0, y, x, c] holds channel c of the pixel in row y, column x, normalised |
| `Tensor.ResizedInputSize` | Predict.cs:36-43 | for the 224 × 224 resized image the tensor holds 150528 cells |
| `Tensor.FillRow` | Predict.cs:46-53 | the inner loop over x extends the filled prefix of the buffer, which ends at cell [0, y, 0, 0], by the normalised R, G, B values of row y, so it then ends at [0, y, W, 0]; the cells from [0, y, W, 0] on keep their values |
| `Tensor.BuildInput` | Predict.cs:43-54 | the nested loops return a fresh buffer of ElementCount([1, H, W, 3]) cells whose contents are exactly the image flattened row-major with normalised R, G, B per pixel |
| `Formatter.Insert` | Predict.cs:68 | inserting index i adds exactly i to the sequence's elements and keeps every element a valid index |
| `Formatter.InsertRanked` | Predict.cs:68 | inserting a new index into a Before-ordered sequence keeps it Before-ordered |
| `Formatter.RankPrefix` | Predict.cs:68 | ranking the first n indices yields a Before-ordered permutation of 0 .. n-1 |
| `Formatter.Ranking` | Predict.cs:68 | Ranking lists n indices: each index of the scores once, in Before order |
| `Formatter.RankingIsPermutation` | Predict.cs:68 | every score index 0 .. n-1 occurs in Ranking, which is a Before-ordered permutation of them |
| `Formatter.RankedSameElements` | Predict.cs:68 | two Before-ordered sequences with the same elements are equal |
| `Formatter.RankingUnique` | Predict.cs:68 | any permutation of the indices in Before order is Ranking, so Ranking is the unique stable descending sort |
| `Formatter.Labelled` | Predict.cs:67 | pairing gives one entry per score; the confidences are the scores in order, and entry i carries labels[i] |
| `Formatter.PickRankPrefix` | Predict.cs:68 | reading entries off in ranked order yields exactly the same entries, reordered |
| `Formatter.OrderByDescending` | Predict.cs:68 | the result is a permutation of the entries whose confidences do not increase, read off in Ranking order, which RankingUnique pins to the stable descending order |
| `Formatter.PickRanking` | Predict.cs:68 | reading the entries off in Ranking order permutes them into non-increasing confidence |
| `Formatter.Take` | Predict.cs:69 | Take(s, k) is a prefix of s with min(k, length of s) entries |
| `Formatter.TopPredictions` | Predict.cs:66-70 | the response has min(10, n) entries drawn from the labelled pairs, each no more often than it occurs there, with non-increasing confidences |
| `Formatter.Format` | Predict.cs:66-70 | the formatter fails exactly when there are more scores than labels (the lookup of the label just past the end of the table fails), and otherwise returns exactly TopPredictions(scores, labels), at most 10 entries |
| `Formatter.TopEntries` | Predict.cs:66-70 | the response has min(10, n) entries, and entry k is (labels[i], scores[i]) for the k-th selected source index i |
| `Formatter.SelectedRanked` | Predict.cs:68-69 | an earlier selected index has a higher score, or an equal score and a smaller index |
| `Formatter.TopDistinct` | Predict.cs:67-69 | no two response entries come from the same source index |
| `Formatter.TopStable` | Predict.cs:68 | among entries of equal confidence, the smaller source index comes first |
| `Formatter.TopDominates` | Predict.cs:68-69 | a score whose index was not selected is at most every selected confidence |
| `Formatter.TopFirstIsMaximum` | Predict.cs:68-69 | for n > 0 the response is non-empty and its first confidence is the maximum score |
| `Formatter.TopFirstIsArgMax` | Predict.cs:66-70 | the first entry is (labels[m], scores[m]) for m the first index holding the maximum score |

## Left out

- Reading the request body and returning `OkObjectResult` with JSON serialisation (Predict.cs:26-27, 72) are I/O and framework plumbing.
- Decoding the image, the crop-resize to 224 × 224 and re-saving it (Predict.cs:28-40) are calls into the image library.
  - The model takes the decoded pixel grid as an `Image` value of any height and width, as the loops do.
  - `Image.Valid` states the library's guarantee that the grid is rectangular.
  - `ResizedInputSize` covers the 224 × 224 case.
- Loading the inference session and running it (Predict.cs:57-63) happen inside the inference engine and its model file. The score vector is an arbitrary input sequence.
- The contents of `LabelMap.Labels` are not part of this model. The label table is a parameter.
- `DenseTensor<float>` is a library type. The model keeps only its zero-initialised flat buffer and its row-major indexer, as `NhwcOffset`.
- Float32 arithmetic and comparison are modelled as `real`. NaN and -0.0 cannot occur here: the values are exact dyadic rationals and the scores are softmax probabilities.
- `FillRow` is the body of the outer loop, lifted into its own method so that each loop is verified on its own. The order of the writes is unchanged.
- `BuildInput` does not count writes per cell in the loop itself. That each cell is written exactly once follows from `NhwcOffsetInjective` and `Unflatten`, together with the loops visiting each (y, x) once.
- `Format` fails only when there are more scores than labels, because only that makes `Labels[i]` throw. A score vector shorter than the label table is formatted normally: the code checks only the lookups it makes.
- The sort is modelled by what it produces, not by how `OrderByDescending` computes it: the unique stable descending order, proved unique by `RankingUnique`. Time and space costs are not modelled.
