# Image gallery: Cloudinary URL rewriter and upload session

This project models two pieces of a small React image gallery.

- **The Cloudinary delivery-URL rewriter** (`src/utils/cloudinary.js`).
  - `getOptimizedImageUrl(url, options)` leaves alone any URL that is empty, does not contain `https://res.cloudinary.com`, or has no `upload` path segment.
  - Otherwise it builds directive tokens `w_…`, `h_…`, `c_…`, `q_…`, `f_…` in that fixed order. Crop, quality and format default to `limit`, `auto` and `auto`, and a token is emitted only for a truthy value.
  - It splices the tokens in as separate `/`-separated segments right after the first `upload` segment.
  - `getResponsiveImageUrls` maps a width list to `{width, url}` entries built with crop `fill`.
  - `generateSrcset` joins `"<url> <width>w"` descriptors with `", "`.
- **The upload session** of `src/components/Uploader.jsx`.
  - Four state cells: `uploading`, `uploadProgress`, `uploadedImage` and `error`.
  - They are driven by a file selection with two validation checks, upload progress events, the load outcome and a network error.
  - `copyJsonToClipboard` builds a catalog record from the finished upload.

There are three modules:

- `Js` (`js.dfy`) holds the JavaScript behaviour the code relies on:
  - truthiness;
  - template-literal rendering of values;
  - `split` on a character and `join`;
  - `includes`, `startsWith` and `indexOf`;
  - decimal rendering of numbers.
- `Cloudinary` (`cloudinary.dfy`) holds the rewriter. Its functions are pure, as in the source. The five conditional `push` calls are the method `BuildTransformations`, proved equal to the function `Transformations` that the rest of the model uses.
- `Uploader` (`uploader.dfy`) holds the session as a class with the four state cells and one method per event handler. The outside world's part arrives as method parameters:
  - the selected file;
  - whether sending throws;
  - the progress figures;
  - the HTTP status and the parsed response;
  - the clock reading.

Behaviours of the code worth noting:

- A new selection does not reset `uploadProgress` to 0. `HandleFileSelect` leaves it unchanged.
- An uploaded image and an error message can be held at the same time.
  - A refused selection after a finished upload shows this (`StaleImageBesideError`).
  - So does a refused selection during an upload (`RefusalDuringUpload`).
- The code has no transfer timeout and sends no destination-folder field.
- The code never shows a server-supplied message. Each failure class has a fixed message.
- The record id is `img-` followed by the millisecond clock, not a generated unique token. Two records get the same id exactly when they are built in the same millisecond (`RecordIdsDistinct`).
- A token is emitted for a truthy value, not for any value that is present.
  - Width 0 and crop `''` or `null` give no token.
  - A default replaces only an undefined field (`CropDefaultOnlyWhenUndefined`).
- The default tokens `c_limit`, `q_auto` and `f_auto` become three path segments, not one comma-joined block (`DefaultOptionsInsertThree`).

## Model

| member | source | states |
|---|---|---|
| Js.Split | src/utils/cloudinary.js:33 | `url.split('/')`: at least one part, and no part contains the separator |
| Js.JoinSplit | src/utils/cloudinary.js:33-54 | joining the parts of `split('/')` with `/` gives back the original string |
| Js.SplitJoin | src/utils/cloudinary.js:50-54 | splitting the `/`-join of a non-empty list of slash-free segments gives back exactly those segments |
| Js.Join | src/utils/cloudinary.js:54 | `join` puts the separator between consecutive parts only; its properties are stated by `JoinSplit`, `SplitJoin` and `JoinAppend` |
| Js.JoinAppend | src/utils/cloudinary.js:80 | joining two non-empty lists equals joining each and putting one separator between the results |
| Js.Includes | src/utils/cloudinary.js:20 | `includes` holds when the text occurs at some position; a found text is never longer than the string searched |
| Js.StartsWith | src/components/Uploader.jsx:20 | `startsWith` holds if and only if the prefix is no longer than the string and agrees with it character by character |
| Js.Truthy | src/utils/cloudinary.js:43-47 | `undefined`, `null`, `false`, `0` and `''` are falsy, everything else truthy; `TransformationsSpec` states that a token is emitted exactly for a truthy value |
| Js.ToStr | src/utils/cloudinary.js:43-47 | the template-literal rendering of a value; for numbers `IntToString` and `IntToStringValue` state what it yields |
| Js.IndexOf | src/utils/cloudinary.js:34 | `indexOf` is -1 exactly when the element is absent; otherwise it is a position holding the element, with no earlier occurrence |
| Js.IntToString | src/utils/cloudinary.js:43 | rendering a number in a template literal gives digits with a leading `-` exactly for negatives |
| Js.IntToStringValue | src/utils/cloudinary.js:43-44 | the rendered digits after any `-` have no leading zero and read back as the magnitude of the number |
| Js.NatToString | src/components/Uploader.jsx:84 | rendering the clock reading gives a non-empty digit string without leading zeros |
| Js.ParseNatToString | src/components/Uploader.jsx:84 | reading the rendered digits back gives the number, so the rendering loses nothing |
| Cloudinary.OrDefault | src/utils/cloudinary.js:27-29 | a destructuring default applies only to an undefined field: the value is truthy exactly when the given one is, or when it is undefined and the default is non-empty |
| Cloudinary.Directives | src/utils/cloudinary.js:24-30 | the five candidate directives w, h, c, q, f with the defaults applied; `DirectiveRanks` states their order and `CropDefaultOnlyWhenUndefined` the crop default |
| Cloudinary.Transformations | src/utils/cloudinary.js:41-47 | at most five tokens; `TransformationsSpec` states exactly which ones and in what order |
| Cloudinary.BuildTransformations | src/utils/cloudinary.js:41-47 | the five conditional pushes onto an empty array build exactly the `Transformations` sequence |
| Cloudinary.PickUpToSpec | src/utils/cloudinary.js:41-47 | after the conditional pushes of the first n candidates, the array holds exactly the tokens of the truthy ones among them, each once, in candidate order |
| Cloudinary.TransformationsSpec | src/utils/cloudinary.js:24-47 | the tokens are exactly those of the truthy directives (width, height, crop defaulting to `limit`, quality and format defaulting to `auto`), in the order w, h, c, q, f; each directive's token is present if and only if its value is truthy |
| Cloudinary.CropDefaultOnlyWhenUndefined | src/utils/cloudinary.js:27-45 | an omitted crop yields `c_limit`; an explicit falsy crop yields no crop token at all |
| Cloudinary.TokensSlashFree | src/utils/cloudinary.js:43-47 | when no option string contains `/`, no token does, so every token stays one path segment |
| Cloudinary.UploadIndex | src/utils/cloudinary.js:34 | on a URL with an `upload` segment, the index found is a valid position holding `upload` |
| Cloudinary.OptimizedImageUrl | src/utils/cloudinary.js:19-57 | a URL that is empty, lacks the Cloudinary host or has no `upload` segment comes back unchanged; `UnchangedIff`, `SpliceAfterUpload` and `SegmentsAfterRewrite` state the rewritten case |
| Cloudinary.UnchangedIff | src/utils/cloudinary.js:19-57 | the URL comes back unchanged if and only if it is empty, lacks the Cloudinary host or has no `upload` segment, or no directive is truthy |
| Cloudinary.SpliceAfterUpload | src/utils/cloudinary.js:50-54 | the result is the URL up to its first `upload` segment (a prefix of the URL ending in `upload`), then the tokens each preceded by `/`, then the rest of the URL unchanged |
| Cloudinary.RewriteLength | src/utils/cloudinary.js:50-54 | a splice lengthens the URL by exactly the inserted text, which is non-empty when there are tokens |
| Cloudinary.SegmentsAfterRewrite | src/utils/cloudinary.js:33-54 | when no option string contains `/`, the result's segments are the original ones up to and including the first `upload`, then the tokens, then every remaining original segment verbatim and in order |
| Cloudinary.RewriteRestores | src/utils/cloudinary.js:50-54 | for tokens without `/`, deleting the spliced token segments from the result and joining with `/` recovers the original URL |
| Cloudinary.RewriteKeepsHost | src/utils/cloudinary.js:20 | a spliced URL still contains the Cloudinary host |
| Cloudinary.RewriteKeepsUploadIndex | src/utils/cloudinary.js:33-38 | for tokens without `/`, a spliced URL is again rewritable, and its first `upload` segment is at the same position |
| Cloudinary.RewriteTwice | src/utils/cloudinary.js:33-54 | for tokens without `/`, splicing the same tokens twice gives the original segments with two runs of tokens after `upload` |
| Cloudinary.DefaultOptionsInsertThree | src/utils/cloudinary.js:24-54 | with the empty options object, exactly the segments `c_limit`, `q_auto`, `f_auto` are inserted right after `upload` |
| Cloudinary.ReapplyingInsertsSecondRun | src/utils/cloudinary.js:34-54 | when no option string contains `/` and some token is emitted, applying the function to its own output inserts a second token run right after `upload`, ahead of the first, so the function is not idempotent |
| Cloudinary.ResponsiveImageUrls | src/utils/cloudinary.js:65-70 | exactly one entry per width, in input order, duplicates kept; entry i pairs `widths[i]` with the URL optimized for `{width: widths[i], crop: 'fill'}` |
| Cloudinary.FillTokens | src/utils/cloudinary.js:68 | the options `{width, crop: 'fill'}` yield `w_<width>` (absent for width 0), then `c_fill`, `q_auto`, `f_auto` |
| Cloudinary.ResponsiveUrlSegments | src/utils/cloudinary.js:65-70 | each responsive URL is the original when it is not rewritable; otherwise its segments are the original ones with the fill tokens inserted after `upload` |
| Cloudinary.Descriptors | src/utils/cloudinary.js:80 | one `"<url> <width>w"` descriptor per entry, in order |
| Cloudinary.GenerateSrcset | src/utils/cloudinary.js:78-81 | no widths give the empty string and one width gives that width's single descriptor; `SrcsetShape` states the general case |
| Cloudinary.SrcsetShape | src/utils/cloudinary.js:78-81 | the srcset of no widths is empty; each further width appends its descriptor, after `", "` unless it is the first |
| Uploader.Rejection | src/components/Uploader.jsx:20-29 | a selection is refused only with the not-an-image or the too-large message, and a file over 10485760 bytes is always refused; `RejectionOrder` states which message applies |
| Uploader.RejectionOrder | src/components/Uploader.jsx:20-29 | a non-image is refused as such whatever its size; an image is refused as too large exactly when its size exceeds 10485760; a file is accepted exactly when it is an image of at most that size |
| Uploader.RoundPercent | src/components/Uploader.jsx:45 | the progress is the whole number nearest to 100·loaded/total, halves rounded up |
| Uploader.RoundPercentBounds | src/components/Uploader.jsx:43-48 | with no more loaded than the total, the progress lies within 0..100; it is 100 when everything is loaded and 0 when nothing is |
| Uploader.RoundPercentMonotone | src/components/Uploader.jsx:45 | more bytes loaded never give a smaller percentage |
| Uploader.Description | src/components/Uploader.jsx:86 | the description is the original file name when that is truthy and `新上传的图片` otherwise, so it is always truthy |
| Uploader.NewImageRecord | src/components/Uploader.jsx:83-90 | the record copies the secure URL, width and height, takes its description from `Description` (file name or fallback), has empty related images, and an id starting with `img-` |
| Uploader.RecordIdTimestamp | src/components/Uploader.jsx:84 | the id after `img-` is all digits and reads back as the clock value |
| Uploader.RecordIdsDistinct | src/components/Uploader.jsx:84 | two records share an id if and only if they are built at the same clock value |
| Uploader.Uploader.constructor | src/components/Uploader.jsx:5-8 | the session starts idle: not uploading, progress 0, no image, no error |
| Uploader.Uploader.HandleFileSelect | src/components/Uploader.jsx:15-77 | no file changes nothing; a refused file sets only the matching error; an accepted file clears error and image and starts uploading, unless sending throws, which ends the upload with the send-failure message; the progress is never reset; a request goes out exactly for an accepted file whose send does not throw |
| Uploader.Uploader.OnProgress | src/components/Uploader.jsx:43-48 | a computable-length event sets the progress to the rounded percentage, any other leaves it; nothing else changes |
| Uploader.Uploader.OnLoad | src/components/Uploader.jsx:51-62 | status 200 stores the response and hands it to the success callback; any other status sets the upload-failed message; either way the upload ends |
| Uploader.Uploader.OnNetworkError | src/components/Uploader.jsx:65-68 | the network message is set and the upload ends; image and progress are kept |
| Uploader.Uploader.CopyJsonToClipboard | src/components/Uploader.jsx:79-90 | nothing is produced without an uploaded image; otherwise the record built from it at the given clock value; the state is not changed |
| Uploader.StaleImageBesideError | src/components/Uploader.jsx:20-33 | after a finished upload, a refused selection leaves the image in place next to the error |
| Uploader.OverlappingUploads | src/components/Uploader.jsx:15-62 | two selections can both send a request; the first response then clears `uploading` and is stored while the second request is still out |
| Uploader.RefusalDuringUpload | src/components/Uploader.jsx:15-62 | a refused selection during an upload sets the error without stopping the upload, which then completes with the error still shown |

Every state-changing method also keeps the invariant `Valid`: the progress is never negative, and no image is held while `uploading` is set. The second half is what the code gives for "no result while an upload is in flight": `HandleFileSelect` clears the image when it sets the flag, and only `OnLoad` stores an image, clearing the flag at the same time. The flag is not a count of requests in flight: `OverlappingUploads` shows it cleared while a second request is still out.

"Removing the inserted tokens recovers the original URL" is stated for any slash-free token run by `RewriteRestores`. `OptimizedIsRewrite` and `TokensSlashFree` connect it to `getOptimizedImageUrl` itself.

## Left out

- The `XMLHttpRequest` and `FormData` objects, the request URL and the upload preset are not modelled (network I/O). Their outcomes are event methods and parameters.
- `JSON.parse` of the response is not modelled (foreign library); the response is a datatype. A parse failure inside the load listener is not modelled either. It would throw before `uploading` is cleared.
- `JSON.stringify`, `navigator.clipboard.writeText` and the `alert` calls are not modelled (host I/O). `CopyJsonToClipboard` returns the record that would be copied.
- `Date.now()` is a parameter (clock).
- Uploader.Uploader.OnLoad: returns the response it would pass to `onUploadSuccess`, without modelling whether that callback was supplied.
- Uploader.RoundPercent: computes the percentage in exact rational arithmetic, not in floating point. A float quotient that lands just below a half can round differently.
- Uploader.Uploader.OnProgress: requires a non-zero total when the length is computable. The source would store `NaN` or `Infinity` there, which integers cannot represent.
- Cloudinary.OptimizedImageUrl: takes a string URL. The source also returns a `null` or `undefined` URL unchanged, and that case is not modelled.
- Option values are `undefined`, `null`, booleans, integers and strings. Fractional numbers, `NaN`, objects and arrays are not modelled.
- Js.IntToString: renders every integer in full decimal. JavaScript numbers are doubles: from 10^21 on they render in exponent form (`1e+21`), and integers above 2^53 are not exact. Those magnitudes are not modelled.
- React's batching of state updates and re-rendering are not modelled. Each handler's updates are applied in order, which gives the same final state.
- The JSX markup, the CSS and the `disabled={uploading}` attribute on the file input are presentation and are not modelled. The handler itself does not guard against a second selection during an upload.
- src/App.jsx, src/components/HomePage.jsx and src/components/DetailPage.jsx are not part of this model. They hold routing, layout and fetch effects.
