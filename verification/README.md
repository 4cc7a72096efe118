# GCS request and result semantics, in Dafny

This project models the request and result value types of a Go abstraction
over Google Cloud Storage buckets (`gcs/requests.go`). That file declares
types only; its doc comments state the rules every implementation of the
bucket interface must follow. The model turns those comments into a pure
reference semantics and proves properties about it:

- the object-name rules, with UTF-8 validity as defined in section 4 of
  RFC 3629 (`utf8.dfy`, `names.dfy`);
- the generation precondition of a create, the record a create leaves
  behind, and the meaning of generation zero in a read (`create.dfy`,
  `read.dfy`);
- prefix/delimiter listing: how each name is reported, what a page
  promises, and what the continuation guarantee gives across a whole
  listing session (`listing.dfy`);
- tri-state metadata updates (`update.dfy`).

Go strings are byte strings, so names, prefixes, delimiters, collapsed runs,
attribute values and metadata keys and values are all `seq<Byte>`
(`bytes.dfy`), compared byte by byte like Go's `<` on strings. Go's `*T`
fields are `Option<T>` (`wrappers.dfy`). The request datatypes are in
`requests.dfy`. The `Object` type, declared outside `gcs/requests.go`, is
not part of this model; `ObjectRecord` carries the fields the requests
mention.

Modelling notes:

- An object name is checked on its code points (U+000A and U+000D), and
  `ValidNameBytewise` proves that this is the same as checking its bytes,
  because those two code points are single bytes and every byte of a
  multi-byte UTF-8 sequence is at least 0x80.
- The delimiter rule in `gcs/requests.go:75-86` lets a name match
  `<Prefix><S><Delimiter><...>` for more than one `S` when the delimiter can
  overlap itself (delimiter `aa`, name `aaa`). `Classify` collapses at the
  first delimiter after the prefix, the shortest `S`, and `IsCollapsedRun`
  states that choice.
- The continuation guarantee (`gcs/requests.go:120-126`) relates a page and
  the page fetched with its token. `SessionIncreasing` proves that the
  objects of a whole session are strictly increasing when no page strictly
  inside the session is empty. `EmptyInnerPageBreaksOrder` shows that the
  pairwise guarantee alone allows an empty middle page to separate two
  pages whose objects are out of order.
- Unlike the string attributes, a metadata value of `Some([])` sets the key
  to the empty string: the comment on `Metadata` deletes only keys mapped
  to nil.
- Removing the content type is excluded by `IsValidUpdate`, a precondition
  of `ApplyUpdate`, since the source defines no error for it.
- A stored generation is never zero, since zero stands for "no object" in a
  create precondition and for "latest" in a read. `CreateGeneration` takes
  the generation the service assigns as a parameter. The model assumes the
  service assigns generations in increasing order, so the generation an
  overwrite produces is greater than the one it replaces. That is what
  lets a read of generation zero ("the latest generation",
  `gcs/requests.go:60`) take the largest stored generation, and
  `CreateThenRead` proves that the object just created is the one read.
- A create whose name breaks the object-name rules of
  `gcs/requests.go:21-29` fails, like a create whose precondition does not
  hold.
- `CreateObjectRequest` attributes are plain strings marked as optional
  (`gcs/requests.go:35-43`). An empty one is treated as not given, which
  is the only way a Go string field can be left out.

## Model

| member | source | states |
|---|---|---|
| `Utf8.DecodeEncode` | gcs/requests.go:27 | decoding the UTF-8 encoding of any text gives the text back |
| `Utf8.EncodeDecode` | gcs/requests.go:27 | a byte string that decodes to a text is exactly the encoding of that text |
| `Utf8.ValidUtf8IffEncoding` | gcs/requests.go:27 | a byte string is valid UTF-8 iff it is the encoding of some sequence of scalar values |
| `Utf8.DecodeFirstOfEncoding` | gcs/requests.go:27 | the decoder reads back a scalar value and its length from its encoding, whatever bytes follow |
| `Utf8.EncodingOfDecodeFirst` | gcs/requests.go:27 | every sequence the decoder accepts is the encoding of the value it yields (no overlong forms, surrogates or values above U+10FFFF) |
| `Utf8.EncodedSizeIsLength` | gcs/requests.go:26 | the byte length of an encoded text is the sum of the 1 to 4 byte lengths of its code points |
| `Utf8.AsciiByteIffCodePoint` | gcs/requests.go:28-29 | an ASCII byte occurs in an encoded text iff its code point occurs in the text |
| `ObjectNames.ValidNameBytewise` | gcs/requests.go:23-29 | a name is valid iff it is non-empty, at most 1024 bytes, valid UTF-8, and has no 0x0A or 0x0D byte |
| `ObjectNames.ValidNameOfText` | gcs/requests.go:23-29 | a text is a valid name iff it is non-empty, its UTF-8 length is at most 1024 and it has neither U+000A nor U+000D |
| `Create.CreatePermitted` | gcs/requests.go:49-52 | no precondition always permits; zero permits iff no object has the name; any other value permits iff it is the current generation |
| `Create.CreateGeneration` | gcs/requests.go:21-52 | a create succeeds iff its name is a valid object name and its precondition permits it, leaves the new generation live, and a precondition that let it through no longer holds afterwards |
| `Create.InvalidNameNotCreated` | gcs/requests.go:21-29 | a create with an empty, overlong, non-UTF-8, LF or CR name fails whatever its precondition |
| `Create.NewRecord` | gcs/requests.go:21-43 | a created record has a valid name, the request's name, metadata and generation, each non-empty attribute string of the request as its value, no attribute for an empty one, and no attribute set to the empty string |
| `Create.CreateThenRead` | gcs/requests.go:49-60 | after a create succeeds, a read of generation zero and a read of the new generation both find the new generation |
| `Updates.CreateIsUpdateOfBlank` | gcs/requests.go:35-43 | a create stores the same record as a valid update giving the create's attributes and metadata to an attribute-free object of that name |
| `Read.Latest` | gcs/requests.go:60 | the latest generation is one of the stored generations and no stored generation is newer |
| `Read.ResolveRead` | gcs/requests.go:55-61 | generation zero reads the newest stored generation and finds one iff any is stored; another generation is read iff it is stored |
| `ByteStrings.LexLessTransitive` | gcs/requests.go:104-105 | the byte-wise lexicographic order used for names is transitive |
| `ByteStrings.LexLessTotal` | gcs/requests.go:104-105 | any two distinct names are ordered one way or the other |
| `ByteStrings.LexLessIrreflexive` | gcs/requests.go:104-105 | no name is less than itself |
| `ByteStrings.ProperPrefixIsLess` | gcs/requests.go:104-105 | a proper prefix sorts before the names it begins |
| `ByteStrings.Find` | gcs/requests.go:78-83 | finds the first occurrence of the delimiter, or reports that there is none |
| `Listings.Classify` | gcs/requests.go:70-87 | a name without the prefix yields nothing; with no delimiter a matching name is an object entry; a collapsed entry begins with the prefix, ends with the delimiter, holds it nowhere in between and begins the name |
| `Listings.ClassifyObjectIff` | gcs/requests.go:70-87 | a name is reported as itself iff it has the prefix and, when collapsing, no delimiter follows the prefix |
| `Listings.ClassifyCollapsedIff` | gcs/requests.go:75-86 | a name collapses into a run iff the run has the form prefix, delimiter-free part, delimiter, and begins the name |
| `Listings.CollapsedRunCoversItsNames` | gcs/requests.go:75-86 | every name extending a collapsed run is reported as that run |
| `Listings.ObjectLessTransitive` | gcs/requests.go:104-105 | the (name, generation) order on objects is transitive |
| `Listings.CheckObjectsIncreasing` | gcs/requests.go:102-106 | comparing neighbours decides whether a page's objects are strictly increasing on (name, generation) |
| `Listings.CheckRunsIncreasing` | gcs/requests.go:108-112 | comparing neighbours decides whether a page's collapsed runs are strictly increasing |
| `Listings.CheckPage` | gcs/requests.go:93-112 | decides whether a page keeps its ordering, classification and non-zero MaxResults bound promises |
| `Listings.ContinuesFromThrough` | gcs/requests.go:120-126 | the continuation guarantee passes through a page that has at least one entry |
| `Listings.FirstPageBeforeLater` | gcs/requests.go:120-126 | with no empty inner page, every entry of the first page is less than every entry of any later page |
| `Listings.SessionIncreasing` | gcs/requests.go:114-126 | across a session with no empty inner page the concatenated objects and collapsed runs are strictly increasing |
| `Listings.EmptyPageContinues` | gcs/requests.go:120-126 | a page with no entries meets the continuation guarantee towards any page before or after it |
| `Listings.EmptyInnerPageBreaksOrder` | gcs/requests.go:120-126 | there is a session meeting every stated guarantee whose concatenated objects are not increasing, because its middle page is empty |
| `Updates.ApplyField` | gcs/requests.go:142-156 | none leaves a field unchanged, the empty string removes it, any other value sets it; the result is never the empty string unless it already was |
| `Updates.ApplyMetadata` | gcs/requests.go:162-166 | keys not mentioned keep their value or absence, keys mapped to nil are deleted, others are set to the given value |
| `Updates.ApplyUpdate` | gcs/requests.go:138-166 | name and generation are unchanged, each attribute follows the tri-state rule, metadata follows the per-key rule, a content type is never removed, and no attribute becomes the empty string |
| `Updates.Compose` | gcs/requests.go:142-166 | composing two valid updates gives a valid update, and composing an update with itself gives it back |
| `Updates.ApplyFieldCompose` | gcs/requests.go:142-154 | two field updates in a row act like the later one, or the earlier one when the later leaves the field alone |
| `Updates.ApplyMetadataCompose` | gcs/requests.go:162-166 | two metadata updates in a row act like their union with the later one winning |
| `Updates.UpdateCompose` | gcs/requests.go:138-166 | two updates in a row equal applying their composition once |
| `Updates.UpdateIdempotent` | gcs/requests.go:138-166 | applying the same update twice gives the same record as applying it once |

## Left out

- The `Contents` reader of a create request and the object bytes: stream I/O.
- The contents of continuation tokens: opaque to callers, modelled only as empty or non-empty.
- The default page size used when MaxResults is zero: unspecified; zero imposes no bound in the model.
- Negative MaxResults: Go's `int` allows it, the comment gives it no meaning; the model uses `nat`.
- Listing atomicity under concurrent writes: explicitly not guaranteed and a concurrency concern.
- The `Bucket` interface and its implementation in `gcs/bucket.go`: delegation to the Google Cloud client library with context and HTTP authorisation plumbing, no logic of its own.
- `StatObjectRequest`: a name only, with no rule to model.
- The order in which the service assigns generations: taken as increasing, since the source says only "latest".
- Errors, retries, cancellation and deadlines: the source defines none of these.
- `Updates.ApplyUpdate`: a request asking to remove the content type is excluded by a precondition rather than reported as an error, since the source names no error for it.
