/** parse_format_details: a copy of an attribute hash with normalised keys
    and values, so image metadata can be compared without regard to case or
    to which program labelled a field `Image: …`. */
module FormatDetails {
  import opened Text
  import opened RubyHash

  const ImagePrefix: string := "Image: "
  const ImageKeyPrefix: string := "img:"

  /** Where the first line of `s` ends: the index of its first newline, or
      the length of `s` when it has none. */
  function LineEnd(s: string): (e: nat)
    ensures e <= |s|
    ensures e < |s| ==> s[e] == '\n'
    ensures forall i :: 0 <= i < e ==> s[i] != '\n'
  {
    if s == [] || s[0] == '\n' then 0 else 1 + LineEnd(s[1..])
  }

  /** A line (no newline inside) that `/^Image: (.).*$/` matches: the prefix
      and at least one more character. */
  predicate IsImageLine(line: string) {
    |line| > |ImagePrefix| && line[..|ImagePrefix|] == ImagePrefix
  }

  /** The replacement `"img:\\1"` on one line: the prefix and the character
      after it become `img:` and that character, the rest of the line goes. */
  function RewriteLine(line: string): (r: string)
    ensures IsImageLine(line) ==> |r| == |ImageKeyPrefix| + 1
    ensures !IsImageLine(line) ==> r == line
  {
    if IsImageLine(line) then ImageKeyPrefix + [line[|ImagePrefix|]] else line
  }

  /** `gsub(/^Image: (.).*$/, "img:\\1")`. In a Ruby regexp `^` and `$`
      anchor at line boundaries and `.` does not match a newline, so every
      line is rewritten on its own and the newlines stay. */
  function SubstituteImageLines(s: string): string
    decreases |s|
  {
    var e := LineEnd(s);
    if e == |s| then RewriteLine(s)
    else RewriteLine(s[..e]) + "\n" + SubstituteImageLines(s[e + 1..])
  }

  /** The key written into `params`: substituted, then downcased. */
  function NormaliseKey(k: string): string
  {
    Downcase(SubstituteImageLines(k))
  }

  /** The pair stored for one entry of `attributes`. */
  function NormaliseEntry(e: Entry): Entry
  {
    Entry(NormaliseKey(e.key), Downcase(e.value))
  }

  /** The pairs stored while visiting `s`, in visiting order. */
  function Pairs(s: seq<Entry>): seq<Entry>
  {
    seq(|s|, i requires 0 <= i < |s| => NormaliseEntry(s[i]))
  }

  /** The contents of `params` once the entries `s` have been visited. */
  function Normalised(s: seq<Entry>): seq<Entry>
  {
    StoreAll(Pairs(s))
  }

  /** A key is stored exactly when some key of `attributes` normalises to
      it. */
  lemma PairKeys(s: seq<Entry>, k: string)
    ensures k in Keys(Pairs(s)) <==> exists i :: 0 <= i < |s| && NormaliseKey(s[i].key) == k
  {
    if k in Keys(Pairs(s)) {
      var i :| 0 <= i < |s| && Keys(Pairs(s))[i] == k;
      assert NormaliseKey(s[i].key) == k;
    }
    if exists i :: 0 <= i < |s| && NormaliseKey(s[i].key) == k {
      var i :| 0 <= i < |s| && NormaliseKey(s[i].key) == k;
      assert Keys(Pairs(s))[i] == k;
    }
  }

  /** `s[i]` is the last entry of `s` whose key normalises to `k`. */
  ghost predicate LastNormalisingTo(s: seq<Entry>, k: string, i: int) {
    0 <= i < |s| && NormaliseKey(s[i].key) == k && forall j :: i < j < |s| ==> NormaliseKey(s[j].key) != k
  }

  /** The value `params` holds for key `k`, stated without the loop: nil
      when no key normalises to `k`, otherwise the downcased value of the
      last entry whose key does. */
  lemma NormalisedGet(s: seq<Entry>, k: string)
    ensures Get(Normalised(s), k).None? <==> forall i :: 0 <= i < |s| ==> NormaliseKey(s[i].key) != k
    ensures Get(Normalised(s), k).Some? ==>
      exists i :: LastNormalisingTo(s, k, i) && Get(Normalised(s), k).value == Downcase(s[i].value)
  {
    var t := Pairs(s);
    StoreAllGet(t, k);
    PairKeys(s, k);
    if Get(Normalised(s), k).Some? {
      var i :| LastWith(t, k, i) && t[i].value == Get(StoreAll(t), k).value;
      forall j | i < j < |s| ensures NormaliseKey(s[j].key) != k {
        assert t[j].key != k;
      }
      assert LastNormalisingTo(s, k, i);
    }
  }

  /** `params` has one entry per distinct normalised key: its keys are
      unique, lower case, and exactly the normalised keys of `attributes`;
      its values are lower case. */
  lemma NormalisedShape(s: seq<Entry>)
    ensures DistinctKeys(Normalised(s))
    ensures |Normalised(s)| <= |s|
    ensures forall k :: k in Keys(Normalised(s)) <==> exists i :: 0 <= i < |s| && NormaliseKey(s[i].key) == k
    ensures forall e :: e in Normalised(s) ==> NoUpper(e.key) && NoUpper(e.value)
  {
    StoreAllShape(Pairs(s));
    forall k ensures k in Keys(Normalised(s)) <==> exists i :: 0 <= i < |s| && NormaliseKey(s[i].key) == k {
      PairKeys(s, k);
    }
  }

  /** A line without upper-case letters cannot start with `Image: `. */
  lemma RewriteLowerLine(line: string)
    requires NoUpper(line)
    ensures RewriteLine(line) == line
  {
    if |line| > |ImagePrefix| {
      assert !IsUpper(line[0]);
      assert line[..|ImagePrefix|][0] == line[0];
    }
  }

  /** A string without upper-case letters has no line to substitute. */
  lemma {:induction false} SubstituteLowerCase(s: string)
    requires NoUpper(s)
    ensures SubstituteImageLines(s) == s
    decreases |s|
  {
    var e := LineEnd(s);
    if e == |s| {
      RewriteLowerLine(s);
    } else {
      RewriteLowerLine(s[..e]);
      SubstituteLowerCase(s[e + 1..]);
      assert s == s[..e] + "\n" + s[e + 1..];
    }
  }

  /** A normalised key normalises to itself. */
  lemma NormaliseKeyIdempotent(k: string)
    ensures NormaliseKey(NormaliseKey(k)) == NormaliseKey(k)
  {
    SubstituteLowerCase(NormaliseKey(k));
    DowncaseIdempotent(SubstituteImageLines(k));
  }

  /** Normalising twice gives what normalising once gives. */
  lemma NormalisedIdempotent(s: seq<Entry>)
    ensures Normalised(Normalised(s)) == Normalised(s)
  {
    var t := Normalised(s);
    NormalisedShape(s);
    forall i | 0 <= i < |t|
      ensures Pairs(t)[i] == t[i]
    {
      assert t[i] in t;
      SubstituteLowerCase(t[i].key);
      DowncaseKeepsLowerCase(t[i].key);
      DowncaseKeepsLowerCase(t[i].value);
    }
    assert Pairs(t) == t;
    StoreAllDistinct(t);
  }

  /** The first line of `s` ends at the first newline, or at the end. */
  lemma LineEndAt(s: string, e: nat)
    requires e <= |s| && (e < |s| ==> s[e] == '\n')
    requires forall i :: 0 <= i < e ==> s[i] != '\n'
    ensures LineEnd(s) == e
  {
  }

  /** A string of one line is rewritten as that line. */
  lemma SubstituteLine(line: string)
    requires '\n' !in line
    ensures SubstituteImageLines(line) == RewriteLine(line)
  {
    LineEndAt(line, |line|);
  }

  /** The first line is rewritten on its own and the rest after it. */
  lemma SubstituteLines(line: string, rest: string)
    requires '\n' !in line
    ensures SubstituteImageLines(line + "\n" + rest) == RewriteLine(line) + "\n" + SubstituteImageLines(rest)
  {
    var s := line + "\n" + rest;
    LineEndAt(s, |line|);
    assert s[..|line|] == line && s[|line| + 1..] == rest;
  }

  /** On a key of one line the rewrite is the whole story: an `Image: ` key
      becomes `img:` and its next character lower-cased, any other key is
      downcased. */
  lemma SingleLineKey(k: string)
    requires '\n' !in k
    ensures NormaliseKey(k) == if IsImageLine(k) then ImageKeyPrefix + [Lower(k[|ImagePrefix|])] else Downcase(k)
  {
    SubstituteLine(k);
  }

  /** Visiting two entries: when their keys normalise alike, one entry with
      the later value; otherwise both normalised pairs in order. */
  lemma NormalisedTwo(a: Entry, b: Entry)
    ensures Normalised([a, b]) ==
      if NormaliseKey(a.key) == NormaliseKey(b.key) then [Entry(NormaliseKey(a.key), Downcase(b.value))]
      else [NormaliseEntry(a), NormaliseEntry(b)]
  {
    var na, nb := NormaliseEntry(a), NormaliseEntry(b);
    assert Pairs([a, b]) == [na, nb];
    StoreAllSnoc([], na);
    StoreAllSnoc([na], nb);
    assert StoreAll([na]) == [na] by {
      assert [] + [na] == [na];
    }
    assert StoreAll([na, nb]) == Put([na], nb.key, nb.value) by {
      assert [na] + [nb] == [na, nb];
    }
  }

  // Worked cases. Each step below takes its literal as a parameter fixed by
  // `requires`, so that the verifier reasons about one named string instead
  // of unfolding Downcase and RewriteLine on a literal character by
  // character; TwoLineKey and WidthAndFormat put the steps together.

  lemma ImageWidthLine(line: string)
    requires line == "Image: Width"
    ensures '\n' !in line && RewriteLine(line) == "img:W"
  {
    assert line[..|ImagePrefix|] == ImagePrefix;
  }

  lemma ImageHeightLine(line: string)
    requires line == "Image: Height"
    ensures '\n' !in line && RewriteLine(line) == "img:H"
  {
    assert line[..|ImagePrefix|] == ImagePrefix;
  }

  lemma DowncaseTwoLines(s: string)
    requires s == "img:W" + "\n" + "img:H"
    ensures Downcase(s) == "img:w" + "\n" + "img:h"
  {
    var r := Downcase(s);
    assert forall i :: 0 <= i < |s| ==> r[i] == ("img:w" + "\n" + "img:h")[i];
  }

  /** Each line of a key is rewritten separately:
      `"Image: Width\nImage: Height"` becomes `"img:w\nimg:h"`. */
  lemma TwoLineKey(first: string, second: string)
    requires first == "Image: Width" && second == "Image: Height"
    ensures NormaliseKey(first + "\n" + second) == "img:w" + "\n" + "img:h"
  {
    ImageWidthLine(first);
    ImageHeightLine(second);
    SubstituteLines(first, second);
    SubstituteLine(second);
    DowncaseTwoLines(SubstituteImageLines(first + "\n" + second));
  }

  /** Downcasing a rewritten line lower-cases only the kept character. */
  lemma DowncaseImageKey(c: char)
    ensures Downcase(ImageKeyPrefix + [c]) == ImageKeyPrefix + [Lower(c)]
  {
    var r := Downcase(ImageKeyPrefix + [c]);
    assert forall i :: 0 <= i < |ImageKeyPrefix| ==> r[i] == ImageKeyPrefix[i];
  }

  lemma ImageWidthEntry(e: Entry)
    requires e == Entry("Image: Width", "640")
    ensures NormaliseEntry(e) == Entry("img:w", "640")
  {
    ImageWidthLine(e.key);
    SubstituteLine(e.key);
    DowncaseImageKey('W');
    assert ImageKeyPrefix + [Lower('W')] == "img:w";
    DowncaseDigits(e.value);
  }

  lemma DowncaseDigits(v: string)
    requires v == "640"
    ensures Downcase(v) == v
  {
    DowncaseKeepsLowerCase(v);
  }

  lemma FormatEntry(e: Entry)
    requires e == Entry("Format", "PNG")
    ensures NormaliseEntry(e) == Entry("format", "png")
  {
    SingleLineKey(e.key);
    DowncaseFormat(e.key);
    DowncasePng(e.value);
  }

  lemma DowncaseFormat(k: string)
    requires k == "Format"
    ensures Downcase(k) == "format"
  {
    var r := Downcase(k);
    assert r[0] == 'f' && r[1] == 'o' && r[2] == 'r' && r[3] == 'm' && r[4] == 'a' && r[5] == 't';
  }

  lemma DowncasePng(v: string)
    requires v == "PNG"
    ensures Downcase(v) == "png"
  {
    var r := Downcase(v);
    assert r[0] == 'p' && r[1] == 'n' && r[2] == 'g';
  }

  lemma WidthAndFormatEntries(a: Entry, b: Entry)
    requires a == Entry("Image: Width", "640") && b == Entry("Format", "PNG")
    ensures Normalised([a, b]) == [Entry("img:w", "640"), Entry("format", "png")]
  {
    ImageWidthEntry(a);
    FormatEntry(b);
    NormalisedTwo(a, b);
  }

  /** `{"Image: Width" => "640", "Format" => "PNG"}` becomes
      `{"img:w" => "640", "format" => "png"}`. */
  lemma WidthAndFormat()
    ensures Normalised([Entry("Image: Width", "640"), Entry("Format", "PNG")])
         == [Entry("img:w", "640"), Entry("format", "png")]
  {
    WidthAndFormatEntries(Entry("Image: Width", "640"), Entry("Format", "PNG"));
  }

  /** parse_format_details: a fresh hash filled by visiting the entries of
      `attributes` in order; `attributes` itself is left alone. */
  method ParseFormatDetails(attributes: Hash) returns (params: Hash)
    ensures fresh(params)
    ensures params.Valid()
    ensures params.entries == Normalised(attributes.entries)
  {
    params := new Hash();
    var source := attributes.entries;
    var i := 0;
    while i < |source|
      invariant 0 <= i <= |source|
      invariant params.Valid()
      invariant params.entries == Normalised(source[..i])
    {
      var entry := source[i];
      params.Store(NormaliseKey(entry.key), Downcase(entry.value));
      assert Pairs(source[..i + 1]) == Pairs(source[..i]) + [NormaliseEntry(entry)];
      StoreAllSnoc(Pairs(source[..i]), NormaliseEntry(entry));
      i := i + 1;
    }
    assert source[..i] == source;
  }
}
