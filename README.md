# Dominant colour of an uploaded photo — verified model

The service takes an uploaded photo, checks that its file name ends in an image
extension, decodes it, drops pixels that are glare or shadow, caps the number
of pixels by random sampling, clusters the remaining colours with k-means
(k = 3) and answers with the centre of the most populous cluster, as `#rrggbb`
text and as an RGB triple.

This project models that computation in Dafny as pure functions with the
properties proved as contracts and lemmas:

- `upload.dfy` (`Upload`): the file-name check. The name must contain a dot and
  the text after the last dot, lower-cased, must be `png`, `jpg`, `jpeg` or `webp`.
- `pixels.dfy` (`Pixels`): 8-bit RGB pixels and the glare/shadow filter. A pixel
  is kept when its largest channel is below 240 and its smallest above 20. When no
  pixel is kept, the unfiltered buffer is used.
- `sampling.dfy` (`Sampling`): the cap of 100000 pixels. The random draw of
  distinct positions is a parameter.
- `dominant.dfy` (`Dominant`): counting the samples per cluster label and
  choosing the label with the largest count. Ties go to the smallest label,
  because the distinct labels are listed in ascending order and the first
  maximum wins.
- `hex_color.dfy` (`HexColor`): the `#rrggbb` encoding, with a decoder proved to
  be its inverse.
- `color_endpoint.dfy` (`ColorEndpoint`): the whole computation from decoded
  pixels to response. The clustering library is a parameter bound by its
  contract.
- `wrappers.dfy` (`Wrappers`): the `Option` type.

Two behaviours of the code are worth stating outright:

- An empty image gets no dedicated error. Clustering raises on fewer than 3
  samples, and the generic handler answers with an internal error (500). An
  empty image is one such case. `GetColor` returns `ServerError` in exactly
  these cases.
- Each channel of the dominant centre is truncated by `int()` (server.py:93).
  It is not rounded or clamped. The model takes the centres as integer triples
  that are already truncated.

## Model

| member | source | states |
|---|---|---|
| `Upload.AllowedFile` | server.py:21-27 | accepted iff the name has a last dot and the lower-cased text after it is one of png, jpg, jpeg, webp; a name without a dot is always rejected |
| `Upload.LowerChar` | server.py:26 | a capital ASCII letter becomes the same letter in lower case; every other character is kept; the result is never a capital |
| `Upload.Lower` | server.py:26 | `.lower()` on the extension: same length, each capital replaced by the same letter in lower case, every other character kept in place |
| `Upload.LowerKeepsDotsAndIsIdempotent` | server.py:26 | lower-casing keeps the length, neither adds nor removes a dot, and lower-casing twice equals lower-casing once |
| `Upload.LowerOfNoCapitals` | server.py:26 | text without capital letters is unchanged by lower-casing |
| `Upload.LastDot` | server.py:25-26 | finds the position where a right split at most once on "." cuts the name: a dot with no dot after it, or none exactly when the name has no dot |
| `Upload.LastDotUnique` | server.py:26 | a name has at most one last dot, so the extension is well defined |
| `Upload.VerdictDependsOnExtensionOnly` | server.py:23-27 | for `stem + "." + ext` with a dot-free ext, the verdict is exactly "lower(ext) is allowed", whatever the stem holds (other dots included) |
| `Upload.ExtensionCaseInsensitive` | server.py:26 | two extensions that lower-case to the same text get the same verdict |
| `Upload.UpperCaseExtensionAccepted` | server.py:26 | a name with an allowed extension in any letter case is accepted, as is its lower-cased form |
| `Upload.ExampleUpperCase` | server.py:23-27 | "photo.PNG" is accepted |
| `Upload.ExampleBareExtension` | server.py:23-27 | ".webp" is accepted (empty stem) |
| `Upload.ExampleNoDot` | server.py:25 | "png" is rejected |
| `Upload.ExampleDoubleExtension` | server.py:26 | "photo.png.exe" is rejected: only the last extension counts |
| `Upload.ExampleTrailingDot` | server.py:26 | "photo." is rejected: an empty extension is not allowed |
| `Pixels.MaxChannel` | server.py:71 | the largest channel of a pixel: one of its channels and at least each of them |
| `Pixels.MinChannel` | server.py:71 | the smallest channel of a pixel: one of its channels and at most each of them |
| `Pixels.Reliable` | server.py:71 | the filter mask (max < 240 and min > 20) holds iff every channel is strictly between 20 and 240 |
| `Pixels.Filter` | server.py:71 | the `arr[mask]` selection: never longer than the input and every pixel in it passes the mask; `FilterSelectsReliable` and `FilterCounts` pin it exactly |
| `Pixels.KeptIndices` | server.py:71 | the positions the mask selects, strictly ascending and in range, containing a position iff the pixel there passes the mask |
| `Pixels.FilterSelectsReliable` | server.py:71 | the filtered buffer is the input at exactly the masked positions, in order: an order-preserving subsequence |
| `Pixels.FilterCounts` | server.py:71 | each colour occurs in the filtered buffer as often as in the input if it passes the mask, else not at all |
| `Pixels.FilterEmptyIff` | server.py:71-72 | the filter yields nothing iff no pixel passes the mask |
| `Pixels.FilterWithFallback` | server.py:71-73 | the result is the filtered buffer when some pixel passes, the whole input when none does; a non-empty input never yields an empty buffer |
| `Pixels.FallbackIsSubsequence` | server.py:71-73 | in both branches the buffer is an order-preserving subsequence of the input, never longer |
| `Sampling.Pick` | server.py:79 | the `arr_filtered[idx]` selection: one element per index, each an element of the buffer; `PickIsSubMultiset` gives the multiset bound |
| `Sampling.PickIsSubMultiset` | server.py:78-79 | selecting at distinct in-range positions gives a sub-multiset of the buffer |
| `Sampling.Sample` | server.py:76-81 | over the cap: exactly 100000 pixels, the k-th being the buffer at the k-th drawn position; at or under the cap: the buffer unchanged; always a sub-multiset of at most 100000 pixels |
| `Dominant.Insert` | server.py:90 | inserting into an ascending list of distinct labels keeps it ascending and adds exactly the new label |
| `Dominant.Unique` | server.py:90 | the distinct labels: strictly ascending and containing exactly the labels that occur |
| `Dominant.Counts` | server.py:90 | the counts that `return_counts=True` gives: one per listed label, equal to the number of times that label occurs, so positive exactly when it occurs; `CountsSumToLength` gives their total |
| `Dominant.ArgMax` | server.py:91 | the first position of the largest count: in range, no count larger, every earlier count smaller |
| `Dominant.DominantLabel` | server.py:90-91 | none iff there are no labels; otherwise a label that occurs, has the largest count, and is the smallest of the labels with that count |
| `Dominant.DominantIsUnique` | server.py:90-91 | at most one label satisfies the dominant-label property, so the selection is fully determined by it |
| `Dominant.CountsSumToLength` | server.py:90 | the per-label counts add up to the number of labels |
| `Dominant.ExampleTieGoesToSmallestLabel` | server.py:90-91 | for labels a < b, the samples labelled [b, a, a, b] tie and a is chosen |
| `HexColor.HexDigit` | server.py:94 | each digit produced is a lower-case hexadecimal digit |
| `HexColor.DigitValue` | server.py:94 | a character has a value iff it is a lower-case hexadecimal digit, and that value's digit is the character |
| `HexColor.Hex2` | server.py:94 | one `{:02x}` field: exactly two lower-case hexadecimal digits that read back as the channel |
| `HexColor.Encode` | server.py:94 | the text has length 7, starts with "#" and the rest are lower-case hexadecimal digits |
| `HexColor.DecodeEncode` | server.py:94 | decoding the text of a colour gives the colour back |
| `HexColor.EncodeDecode` | server.py:94 | every text the decoder accepts is the encoding of its result |
| `HexColor.EncodeInjective` | server.py:94 | distinct colours have distinct texts |
| `HexColor.ExampleMixed` | server.py:94 | (18, 52, 86) is "#123456" |
| `HexColor.ExamplePureRed` | server.py:94 | (255, 0, 0) is "#ff0000" |
| `ColorEndpoint.ClusterInput` | server.py:71-81 | the filter, fallback and sampling chain: as long as the filtered buffer up to the cap of 100000, non-empty for a non-empty image, and a sub-multiset of the filtered buffer |
| `ColorEndpoint.KMeansContractEnablesGetColor` | server.py:84-87 | a clustering that keeps the library's contract (one label in 0..2 per sample, three centres) meets what `GetColor` requires of it |
| `ColorEndpoint.GetColor` | server.py:68-103 | a server error iff fewer than 3 pixels reach clustering; otherwise the colour is the centre of a dominant label of the clustering of the sampled buffer, and the text is that colour encoded |
| `ColorEndpoint.EmptyImageIsServerError` | server.py:72-86 | an image with no pixels gets the generic server error |
| `ColorEndpoint.ResponseFieldsAgree` | server.py:93-98 | in a successful response, decoding `hex` gives exactly `rgb` |
| `ColorEndpoint.UnreliableImageClusteredWhole` | server.py:71-86 | an image of only glare and shadow, with 3 to 100000 pixels, is clustered whole and the request succeeds |

## Left out

- HTTP routing, static and favicon serving, the 5 MB upload limit, the "no file uploaded" and "invalid file type" replies, JSON responses and status codes, and the console print in the error handler: web plumbing and I/O. `Response` keeps only the colour or the generic internal error.
- Image decoding and the "not a valid image" reply: a foreign library. The model starts from the decoded buffer of 8-bit RGB pixels in row-major order.
- k-means fitting (k = 3, five initialisations, fixed seed): a foreign library working in floating point. It is the parameter `kmeans`, and `IsKMeans` states its contract: one label in 0..2 per sample and three centres when there are at least three samples. `GetColor` requires that contract only for the one sample it clusters (`ClusteringFits`). `KMeansContractEnablesGetColor` derives that from `IsKMeans`. Other numeric failures inside the library are not modelled.
- The `int()` truncation of the floating-point centres: the centres are given as integer triples in 0..255. That range holds because a centre is a mean of 8-bit channels.
- The random draw of positions without replacement: randomness. It is the parameter `draw`. The model requires only what the random source guarantees: exactly 100000 distinct in-range positions, and only when the buffer is over the cap.
- Upload.Lower, Upload.LowerChar: lower-case ASCII letters only, where the source lower-cases all of Unicode. The verdict is the same. The only non-ASCII characters that lower-case into ASCII are the Kelvin sign (to `k`) and the dotted capital I (to `i` plus a combining dot). Neither result can be part of an allowed extension.
- The browser script: user-interface text updates with no computation to model.
