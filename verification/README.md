# Image helpers of the resource server's feature suite

The feature suite of the resource server checks resized and converted
images against reference images. To make a reference image it mixes a
helper module, `KnowsHowToAlterImages`, into its test world. That module
has three parts:

- `GRAVITIES` maps compass codes (`C`, `NE`, …) to ImageMagick gravity names.
- `alter_image(path, attributes:)` consumes an attribute hash (Width, Height,
  Resize Method, Gravity, Format) and builds a `mogrify` command line. It
  raises when a key is left that it does not know.
- `parse_format_details(attributes)` copies a hash of image metadata with
  normalised keys and values: `Image: X…` keys become `img:x`, and
  everything is lower-cased.

The model has five modules:

- `Text` (`text.dfy`) holds Ruby's `String#downcase` on ASCII letters and
  `Array#join`.
- `RubyHash` (`ruby_hash.dfy`) models a Ruby Hash as an insertion-ordered
  sequence of entries with unique keys. Its class `Hash` has the methods
  the helpers call: `delete` and `[]=` change `entries` in place, while
  `has_key?`, `empty?` and `keys` only read it.
- `Gravity` (`gravity.dfy`) holds the `GRAVITIES` table and its lookup.
- `AlterImages` (`alter_images.dfy`) holds `alter_image`, written as a
  method that changes the caller's `Hash`. Its specification function
  `Outcome` gives the command text, or the message of the exception.
- `FormatDetails` (`format_details.dfy`) holds `parse_format_details`. It
  is a method whose loop fills a fresh `Hash`, and its specification
  function is `Normalised`.

Some behaviour follows the code's literal reading:

- An unknown gravity code interpolates as the empty string and does not
  raise (`GRAVITIES[...]` answers nil).
- A `Resize Method` other than `Crop` emits no sizing fragment and does
  not raise.
- `Gravity` is consumed only under `Crop`. Without Crop it is left over,
  so the call raises.
- The `gsub` in `parse_format_details` applies to every line of a key,
  because `^`, `$` and `.` in a Ruby regexp work line by line.

## Model

| member | source | states |
|---|---|---|
| Gravity.GravityName | features/support/helpers/images.rb:2-12 | the looked-up name is empty exactly when the code is not in the table |
| Gravity.GravityCodes | features/support/helpers/images.rb:2-12 | the table has exactly the nine codes `C`, `N`, `NE`, `E`, `SE`, `S`, `SW`, `W`, `NW` |
| Gravity.GravityEntries | features/support/helpers/images.rb:2-12 | each code maps to its ImageMagick name, `C` to `Center` and the others to the compass name |
| Gravity.CodeOfInvertsGravities | features/support/helpers/images.rb:2-12 | reading a table name back through `CodeOf` gives the code it came from |
| Gravity.GravityNamesOneToOne | features/support/helpers/images.rb:2-12 | no two codes in the table share a gravity name |
| RubyHash.Hash.Delete | features/support/helpers/images.rb:15-17 | `delete` answers the stored value or nil, removes exactly that key and keeps keys unique |
| RubyHash.Hash.HasKey | features/support/helpers/images.rb:29 | `has_key?` holds exactly when the key is among the keys |
| RubyHash.Hash.IsEmpty | features/support/helpers/images.rb:31 | `empty?` holds exactly when no entry is left |
| RubyHash.Hash.KeyList | features/support/helpers/images.rb:31 | `keys` lists the keys in insertion order |
| RubyHash.Hash.Store | features/support/helpers/images.rb:41 | `[]=` stores the pair and keeps keys unique |
| RubyHash.Hash.constructor | features/support/helpers/images.rb:39 | `params = {}`: a new hash with no entries |
| RubyHash.Get | features/support/helpers/images.rb:15-17 | `h[k]`: the value stored under `k`, or nil |
| RubyHash.Put | features/support/helpers/images.rb:41 | `h[k] = v`: replaces the value in place when `k` is held, otherwise appends the pair; the length is kept when `k` is held and grows by one otherwise |
| RubyHash.Remove | features/support/helpers/images.rb:15-17 | `delete(k)`: the entries without those of key `k` |
| RubyHash.StoreAll | features/support/helpers/images.rb:40-42 | the hash that results from storing each pair in turn with `[]=`, starting from `{}` |
| RubyHash.GetFinds | features/support/helpers/images.rb:15-17 | a lookup answers nil exactly for a missing key, and otherwise a stored pair's value |
| RubyHash.RemoveMembers | features/support/helpers/images.rb:15-17 | after `delete(k)` the key is gone and every other entry stays |
| RubyHash.PutGet | features/support/helpers/images.rb:41 | after `h[k] = v`, `h[k]` is `v` and every other key maps as before |
| RubyHash.PutKeys | features/support/helpers/images.rb:41 | `h[k] = v` keeps the key order and appends a new key at the end |
| RubyHash.StoreAllGet | features/support/helpers/images.rb:40-42 | after storing pairs in turn, a key maps to nil when no pair has it, and otherwise to the value of the last pair that has it |
| RubyHash.StoreAllShape | features/support/helpers/images.rb:40-42 | storing pairs in turn gives unique keys, exactly the keys stored and only pairs that were stored |
| RubyHash.StoreAllDistinct | features/support/helpers/images.rb:40-42 | pairs with distinct keys are stored as they are |
| RubyHash.GetIgnoresOrder | features/support/helpers/images.rb:15-17 | with unique keys, lookups depend only on which pairs are stored, not on their order |
| Text.DowncaseIdempotent | features/support/helpers/images.rb:41 | downcasing twice is downcasing once |
| Text.Downcase | features/support/helpers/images.rb:41 | `String#downcase`: every character lower-cased, the length kept |
| Text.Join | features/support/helpers/images.rb:31-34 | `Array#join`: the parts in order with the separator between neighbours |
| Text.JoinSnoc | features/support/helpers/images.rb:34 | joining one more part adds one separator and that part at the end |
| AlterImages.AlterImage | features/support/helpers/images.rb:14-34 | the call leaves exactly the unconsumed entries in the caller's hash, whether or not it raises, and its result is `Outcome` of the hash it was given |
| AlterImages.Outcome | features/support/helpers/images.rb:14-34 | the message listing the leftover keys when some entry is left over, otherwise the command line of the fragments |
| AlterImages.Leftover | features/support/helpers/images.rb:15-29 | the caller's hash after the deletes: its entries in order, without Width, Height, Resize Method and Format, and without Gravity when the method is Crop |
| AlterImages.Fragments | features/support/helpers/images.rb:19-29 | the `commands` array, flattened: the sizing fragment the resize method picks, if any, then `-format {F}` when Format is given |
| AlterImages.Flatten | features/support/helpers/images.rb:23 | how `Array#join` sees `commands`: a `Command` is a string or a nested array (the resize branch pushes a one-element array), and nested arrays are spliced in place |
| AlterImages.ResizeFragment | features/support/helpers/images.rb:23 | `-resize {W}x{H}`, a missing side interpolating as the empty string |
| AlterImages.CropFragment | features/support/helpers/images.rb:26 | `-thumbnail {W}x{H}^ -extent {W}x{H} -gravity {G}` |
| AlterImages.FormatFragment | features/support/helpers/images.rb:29 | `-format {F}` |
| AlterImages.LeftoverMessage | features/support/helpers/images.rb:31 | `I haven't dealt with all the parameters (` then the keys joined by `, ` then `)` |
| AlterImages.CommandLine | features/support/helpers/images.rb:34 | `mogrify`, the fragments and the path, joined by single spaces |
| AlterImages.DeletesReachLeftover | features/support/helpers/images.rb:15-17 | each delete in turn reads the value the caller passed, and the deletes leave exactly the leftover entries |
| AlterImages.FlattenCommandLine | features/support/helpers/images.rb:34 | `%w{mogrify} + commands + [path]` flattens to `mogrify`, the fragments and the path |
| AlterImages.LeftoverEntries | features/support/helpers/images.rb:15-31 | an entry survives exactly when its key is not consumed; Width, Height, Resize Method and Format never survive |
| AlterImages.RaisesIff | features/support/helpers/images.rb:31 | the call raises exactly when some key is one it does not consume |
| AlterImages.ErrorMessage | features/support/helpers/images.rb:31 | for every hash, the call raises exactly when an entry is left over, its message is the prefix, the leftover keys joined by `, ` and `)`, and each listed key is one the caller passed and the call does not consume |
| AlterImages.LeftoverKeepsOrder | features/support/helpers/images.rb:15-31 | for every hash and every cut point, the leftover entries before the cut come before those after it, so the message lists keys in insertion order |
| AlterImages.CommandShape | features/support/helpers/images.rb:34 | on success the command starts with `mogrify `, ends with a space and the unchanged path, and joins the fragments in order with single spaces |
| AlterImages.KeyOrderIrrelevant | features/support/helpers/images.rb:14-34 | with unique keys, whether the call raises, and the command it builds, do not depend on the order of the keys |
| AlterImages.SizingIff | features/support/helpers/images.rb:21-27 | a sizing fragment is emitted exactly when there is no resize method and a width or height is given, or when the method is Crop |
| AlterImages.ResizeFragmentIs | features/support/helpers/images.rb:21-23 | for every hash without a resize method but with a width or height, the first fragment is `-resize {W}x{H}` with a missing side written as empty |
| AlterImages.FormatLast | features/support/helpers/images.rb:29 | a `-format` fragment appears exactly when Format is given, and then it is the last fragment |
| AlterImages.CropGravity | features/support/helpers/images.rb:24-26 | under Crop the gravity is the table name of the given code, or of `C` when none is given; an unknown code gives an empty name; Gravity never survives |
| AlterImages.ResizeCommand | features/support/helpers/images.rb:22-23 | Width w and Height h give `mogrify -resize {w}x{h} {path}` |
| AlterImages.ResizeHeightOnly | features/support/helpers/images.rb:21-23 | Height h alone gives `mogrify -resize x{h} {path}` |
| AlterImages.CropCommand | features/support/helpers/images.rb:24-26 | Crop without a Gravity crops around `Center` |
| AlterImages.UnhandledKey | features/support/helpers/images.rb:31 | worked case: `{"Quality" => v}` raises `I haven't dealt with all the parameters (Quality)` |
| AlterImages.GravityWithoutCrop | features/support/helpers/images.rb:31 | worked case: `{"Quality", "Width", "Gravity"}` without Crop raises with `(Quality, Gravity)` |
| FormatDetails.ParseFormatDetails | features/support/helpers/images.rb:38-44 | the result is a fresh hash with unique keys whose contents are `Normalised` of the argument's entries; the argument is not modified |
| FormatDetails.Normalised | features/support/helpers/images.rb:40-42 | the contents of `params` after each entry in turn has been stored with its key rewritten and downcased and its value downcased |
| FormatDetails.NormaliseKey | features/support/helpers/images.rb:41 | the key after the line-wise `Image: X…` rewrite and `downcase` |
| FormatDetails.SubstituteImageLines | features/support/helpers/images.rb:41 | the line-wise `gsub`: each line that starts with `Image: ` and has a character after it becomes `img:` and that character, other lines and the newlines stay |
| FormatDetails.IsImageLine | features/support/helpers/images.rb:41 | a line matches `/^Image: (.).*$/` exactly when it starts with `Image: ` and has at least one more character |
| FormatDetails.RewriteLine | features/support/helpers/images.rb:41 | `img:\1` on one line: a matching line becomes `img:` and its captured character, five characters in all, and any other line is unchanged |
| FormatDetails.NormalisedGet | features/support/helpers/images.rb:40-42 | a key maps to nil when no key normalises to it, and otherwise to the downcased value of the last entry whose key does |
| FormatDetails.NormalisedShape | features/support/helpers/images.rb:40-42 | the result has unique keys, exactly the normalised keys, at most one entry per input entry, and only lower-case keys and values |
| FormatDetails.NormalisedIdempotent | features/support/helpers/images.rb:38-44 | normalising twice gives what normalising once gives |
| FormatDetails.NormaliseKeyIdempotent | features/support/helpers/images.rb:41 | a normalised key normalises to itself |
| FormatDetails.SingleLineKey | features/support/helpers/images.rb:41 | on a one-line key, `Image: ` plus a character becomes `img:` and that character lower-cased, and any other key is downcased |
| FormatDetails.SubstituteLines | features/support/helpers/images.rb:41 | the substitution rewrites the first line on its own and then the rest |
| FormatDetails.TwoLineKey | features/support/helpers/images.rb:41 | `"Image: Width\nImage: Height"` normalises to `"img:w\nimg:h"` |
| FormatDetails.NormalisedTwo | features/support/helpers/images.rb:40-42 | of two entries whose keys normalise alike, the later value is kept, in a single entry |
| FormatDetails.WidthAndFormat | features/support/helpers/images.rb:38-44 | `{"Image: Width" => "640", "Format" => "PNG"}` becomes `{"img:w" => "640", "format" => "png"}` |

## Left out

- Running the command. The backtick at features/support/helpers/images.rb:35 starts an external `mogrify` process that rewrites the image file, so the model stops at the command text.
- `compare_response_image` (features/support/helpers/images.rb:46-83). It manages temporary files, captures HTTP responses, calls a perceptual-hash library, picks random file names and writes to the console, and it is marked pending.
- `World(KnowsHowToAlterImages)` (features/support/helpers/images.rb:85), which only registers the module with the test framework.
- Text.Downcase: lower-cases ASCII letters only. Ruby's `String#downcase` also maps non-ASCII letters, and the model does not.
- Hash: holds String keys and String values only, which is what the feature tables pass. Ruby allows any object as a key or value.
- AlterImages.CropCommand: states the expected command through `CropFragment` instead of spelling out every character.
