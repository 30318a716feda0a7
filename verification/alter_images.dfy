/** `alter_image`: turns an attribute hash taken from a feature table into the
    `mogrify` command line that resizes, crops or converts a reference image.
    The hash is consumed key by key; any key left over makes the call raise.
    Running the command is not part of this model: the result is the command
    text the shell would receive, or the message of the exception. */
module AlterImages {
  import opened Text
  import opened RubyHash
  import opened Gravity

  const WidthKey: string := "Width"
  const HeightKey: string := "Height"
  const ResizeMethodKey: string := "Resize Method"
  const GravityKey: string := "Gravity"
  const FormatKey: string := "Format"
  const Crop: string := "Crop"
  const DefaultGravity: string := "C"
  const Tool: string := "mogrify"
  const LeftoverPrefix: string := "I haven't dealt with all the parameters ("
  const FormatOption: string := "-format "

  /** What the call ends with: the command text, or a raised RuntimeError. */
  datatype Result<T> = Ok(value: T) | Err(message: string)

  /** An element of the `commands` array: a string, or an array of strings
      (the resize branch pushes a one-element array). */
  datatype Command = Fragment(text: string) | Nested(parts: seq<string>)

  /** The strings Array#join sees once nested arrays are flattened. */
  function Flatten(cs: seq<Command>): seq<string>
  {
    if cs == [] then []
    else
      (match cs[0]
       case Fragment(t) => [t]
       case Nested(ps) => ps) + Flatten(cs[1..])
  }

  /** Flattening distributes over concatenation. */
  lemma {:induction false} FlattenConcat(a: seq<Command>, b: seq<Command>)
    ensures Flatten(a + b) == Flatten(a) + Flatten(b)
  {
    if a == [] {
      assert a + b == b;
    } else {
      assert (a + b)[0] == a[0];
      assert (a + b)[1..] == a[1..] + b;
      FlattenConcat(a[1..], b);
    }
  }

  lemma FlattenFragment(t: string)
    ensures Flatten([Fragment(t)]) == [t]
  {
  }

  lemma FlattenNested(ps: seq<string>)
    ensures Flatten([Nested(ps)]) == ps
  {
    assert [Nested(ps)][1..] == [];
  }

  /** How the two ends of alter_image meet its outcome. */
  lemma OutcomeFromParts(path: string, attrs: seq<Entry>, rest: seq<Entry>, commands: seq<Command>, r: Result<string>)
    requires rest == Leftover(attrs)
    requires Flatten(commands) == Fragments(attrs)
    requires rest != [] ==> r == Err(LeftoverMessage(Keys(rest)))
    requires rest == [] ==> r == Ok(Join(Flatten([Fragment(Tool)] + commands + [Fragment(path)]), " "))
    ensures r == Outcome(path, attrs)
  {
    FlattenCommandLine(path, commands);
  }

  /** `%w{mogrify} + commands + [path]`, flattened. */
  lemma FlattenCommandLine(path: string, commands: seq<Command>)
    ensures Flatten([Fragment(Tool)] + commands + [Fragment(path)]) == [Tool] + Flatten(commands) + [path]
  {
    FlattenConcat([Fragment(Tool)] + commands, [Fragment(path)]);
    FlattenConcat([Fragment(Tool)], commands);
    FlattenFragment(Tool);
    FlattenFragment(path);
  }

  /** `"#{x}"` for a String or nil: nil interpolates as the empty string. */
  function Interpolate(v: Option<string>): string
  {
    v.GetOr("")
  }

  /** The `{width}x{height}` geometry. */
  function Geometry(width: Option<string>, height: Option<string>): string
  {
    Interpolate(width) + "x" + Interpolate(height)
  }

  /** `-resize {W}x{H}` */
  function ResizeFragment(width: Option<string>, height: Option<string>): string
  {
    "-resize " + Geometry(width, height)
  }

  /** `-thumbnail {W}x{H}^ -extent {W}x{H} -gravity {G}`: cover the box, then cut
      it to exactly that size around the gravity point. */
  function CropFragment(width: Option<string>, height: Option<string>, gravity: string): string
  {
    "-thumbnail " + Geometry(width, height) + "^ -extent " + Geometry(width, height)
    + " -gravity " + gravity
  }

  /** `-format {F}` */
  function FormatFragment(format: Option<string>): string
  {
    FormatOption + Interpolate(format)
  }

  /** The sizing fragment chosen by the resize method, if any. */
  function SizingFragments(width: Option<string>, height: Option<string>,
                           resizeMethod: Option<string>, gravity: Option<string>): seq<string>
  {
    match resizeMethod
    case None =>
      if width.Some? || height.Some? then [ResizeFragment(width, height)] else []
    case Some(m) =>
      if m == Crop then [CropFragment(width, height, GravityName(gravity.GetOr(DefaultGravity)))]
      else []
  }

  /** The format fragment, present exactly when a format was given. */
  function FormatFragments(format: Option<string>): seq<string>
  {
    if format.Some? then [FormatFragment(format)] else []
  }

  /** The keys the call consumes: Gravity only under the Crop method. */
  function Consumed(resizeMethod: Option<string>): set<string>
  {
    var sizing := {WidthKey} + {HeightKey} + {ResizeMethodKey};
    (if resizeMethod == Some(Crop) then sizing + {GravityKey} else sizing) + {FormatKey}
  }

  /** The fragments in emission order: sizing first, then format. */
  function Fragments(attrs: seq<Entry>): seq<string>
  {
    SizingFragments(Get(attrs, WidthKey), Get(attrs, HeightKey),
                    Get(attrs, ResizeMethodKey), Get(attrs, GravityKey))
    + FormatFragments(Get(attrs, FormatKey))
  }

  /** What is left of the caller's hash once the call has consumed its keys. */
  function Leftover(attrs: seq<Entry>): seq<Entry>
  {
    Without(attrs, Consumed(Get(attrs, ResizeMethodKey)))
  }

  function LeftoverMessage(keys: seq<string>): string
  {
    LeftoverPrefix + Join(keys, ", ") + ")"
  }

  /** `mogrify`, the fragments and the path, joined by single spaces. */
  function CommandLine(path: string, fragments: seq<string>): string
  {
    Join([Tool] + fragments + [path], " ")
  }

  /** What `alter_image(path, attributes: attrs)` ends with. */
  function Outcome(path: string, attrs: seq<Entry>): Result<string>
  {
    var rest := Leftover(attrs);
    if rest != [] then Err(LeftoverMessage(Keys(rest)))
    else Ok(CommandLine(path, Fragments(attrs)))
  }

  /** One more Hash#delete after the keys in `taken` are gone: the key still
      maps to what it mapped to at the start, and afterwards `taken + {k}` is
      gone, whether or not the hash held `k`. */
  lemma DeleteStep(s: seq<Entry>, taken: set<string>, k: string)
    requires k !in taken
    ensures Get(Without(s, taken), k) == Get(s, k)
    ensures Remove(Without(s, taken), k) == Without(s, taken + {k})
    ensures k !in Keys(Without(s, taken)) ==> Without(s, taken) == Without(s, taken + {k})
  {
    GetWithout(s, taken, k);
    WithoutWithout(s, taken, {k});
    if k !in Keys(Without(s, taken)) {
      RemoveAbsent(Without(s, taken), k);
    }
  }

  /** The five keys alter_image knows are different strings. */
  lemma KnownKeysDiffer()
    ensures HeightKey !in {WidthKey}
    ensures ResizeMethodKey !in {WidthKey} + {HeightKey}
    ensures GravityKey !in {WidthKey} + {HeightKey} + {ResizeMethodKey}
    ensures FormatKey !in {WidthKey} + {HeightKey} + {ResizeMethodKey} + {GravityKey}
  {
  }

  /** The deletes alter_image performs, one after another, read the values the
      caller passed and leave exactly the leftover entries. */
  lemma DeletesReachLeftover(attrs: seq<Entry>, a1: seq<Entry>, a2: seq<Entry>, a3: seq<Entry>, a4: seq<Entry>)
    requires a1 == Remove(attrs, WidthKey)
    requires a2 == Remove(a1, HeightKey)
    requires a3 == Remove(a2, ResizeMethodKey)
    requires a4 == if Get(a2, ResizeMethodKey) == Some(Crop) then Remove(a3, GravityKey) else a3
    ensures Get(a1, HeightKey) == Get(attrs, HeightKey)
    ensures Get(a2, ResizeMethodKey) == Get(attrs, ResizeMethodKey)
    ensures Get(a3, GravityKey) == Get(attrs, GravityKey)
    ensures Get(a4, FormatKey) == Get(attrs, FormatKey)
    ensures Remove(a4, FormatKey) == Leftover(attrs)
    ensures FormatKey !in Keys(a4) ==> a4 == Leftover(attrs)
  {
    KnownKeysDiffer();
    var sizing := {WidthKey} + {HeightKey} + {ResizeMethodKey};
    DeleteStep(attrs, {WidthKey}, HeightKey);
    DeleteStep(attrs, {WidthKey} + {HeightKey}, ResizeMethodKey);
    DeleteStep(attrs, sizing, GravityKey);
    if Get(attrs, ResizeMethodKey) == Some(Crop) {
      DeleteStep(attrs, sizing + {GravityKey}, FormatKey);
    } else {
      DeleteStep(attrs, sizing, FormatKey);
    }
  }

  /** alter_image, up to the point where the command is handed to the shell.
      The caller's hash loses every key the call consumed, whether or not it
      raises. */
  method AlterImage(path: string, attributes: Hash) returns (r: Result<string>)
    requires attributes.Valid()
    modifies attributes
    ensures attributes.Valid()
    ensures attributes.entries == Leftover(old(attributes.entries))
    ensures r == Outcome(path, old(attributes.entries))
  {
    ghost var attrs := attributes.entries;
    var width := attributes.Delete(WidthKey);
    ghost var a1 := attributes.entries;
    var height := attributes.Delete(HeightKey);
    ghost var a2 := attributes.entries;
    var resizeMethod := attributes.Delete(ResizeMethodKey);
    ghost var a3 := attributes.entries;

    var commands: seq<Command> := [];
    match resizeMethod {
      case None =>
        if width.Some? || height.Some? {
          commands := commands + [Nested([ResizeFragment(width, height)])];
          FlattenNested([ResizeFragment(width, height)]);
        }
      case Some(m) =>
        if m == Crop {
          var code := attributes.Delete(GravityKey);
          var gravity := GravityName(code.GetOr(DefaultGravity));
          commands := commands + [Fragment(CropFragment(width, height, gravity))];
          FlattenFragment(CropFragment(width, height, gravity));
        }
    }
    ghost var sizing := commands;
    DeletesReachLeftover(attrs, a1, a2, a3, attributes.entries);
    assert Flatten(sizing) == SizingFragments(width, height, resizeMethod, Get(attrs, GravityKey));

    GetFinds(attributes.entries, FormatKey);
    var hasFormat := attributes.HasKey(FormatKey);
    if hasFormat {
      var format := attributes.Delete(FormatKey);
      commands := commands + [Fragment(FormatFragment(format))];
      FlattenConcat(sizing, [Fragment(FormatFragment(format))]);
      FlattenFragment(FormatFragment(format));
    } else {
      assert commands == sizing + [];
    }
    assert attributes.entries == Leftover(attrs);
    assert Flatten(commands) == Fragments(attrs);

    var empty := attributes.IsEmpty();
    if !empty {
      var keys := attributes.KeyList();
      assert keys == Keys(attributes.entries);
      r := Err(LeftoverMessage(keys));
    } else {
      FlattenCommandLine(path, commands);
      r := Ok(Join(Flatten([Fragment(Tool)] + commands + [Fragment(path)]), " "));
    }
    OutcomeFromParts(path, attrs, attributes.entries, commands, r);
  }

  // Properties of the outcome

  /** The entries that survive are exactly those of keys the call does not
      consume; Width, Height, Resize Method and Format never survive. */
  lemma LeftoverEntries(attrs: seq<Entry>)
    ensures forall e :: e in Leftover(attrs) <==> e in attrs && e.key !in Consumed(Get(attrs, ResizeMethodKey))
    ensures forall e :: e in Leftover(attrs) ==>
              e.key != WidthKey && e.key != HeightKey && e.key != ResizeMethodKey && e.key != FormatKey
  {
    WithoutMembers(attrs, Consumed(Get(attrs, ResizeMethodKey)));
  }

  /** The call raises exactly when some key is one it does not consume: any
      key outside Width, Height, Resize Method and Format, or Gravity when the
      method is not Crop. */
  lemma RaisesIff(path: string, attrs: seq<Entry>)
    ensures Outcome(path, attrs).Err?
            <==> exists e :: e in attrs && e.key !in Consumed(Get(attrs, ResizeMethodKey))
  {
    var rest := Leftover(attrs);
    LeftoverEntries(attrs);
    if rest != [] {
      assert rest[0] in rest;
    }
  }

  /** The call raises exactly when some entry is left over, and its message
      lists the keys of the leftover entries, joined by `, `, each a key the
      caller passed that the call does not consume. */
  lemma ErrorMessage(path: string, attrs: seq<Entry>)
    ensures Outcome(path, attrs).Err? <==> Leftover(attrs) != []
    ensures Outcome(path, attrs).Err? ==>
      Outcome(path, attrs).message == LeftoverPrefix + Join(Keys(Leftover(attrs)), ", ") + ")"
    ensures forall i :: 0 <= i < |Keys(Leftover(attrs))| ==>
      Keys(Leftover(attrs))[i] in Keys(attrs) && Keys(Leftover(attrs))[i] !in Consumed(Get(attrs, ResizeMethodKey))
  {
    var rest := Leftover(attrs);
    LeftoverEntries(attrs);
    forall i | 0 <= i < |Keys(rest)|
      ensures Keys(rest)[i] in Keys(attrs)
    {
      assert rest[i] in attrs;
      var j :| 0 <= j < |attrs| && attrs[j] == rest[i];
      assert Keys(attrs)[j] == Keys(rest)[i];
    }
  }

  /** The leftover entries keep the caller's order: cutting the hash at any
      point, those before the cut come first. */
  lemma LeftoverKeepsOrder(attrs: seq<Entry>, n: nat)
    requires n <= |attrs|
    ensures var consumed := Consumed(Get(attrs, ResizeMethodKey));
      Leftover(attrs) == Without(attrs[..n], consumed) + Without(attrs[n..], consumed)
  {
    assert attrs == attrs[..n] + attrs[n..];
    WithoutConcat(attrs[..n], attrs[n..], Consumed(Get(attrs, ResizeMethodKey)));
  }

  /** On success the command is `mogrify`, the fragments and the path, one
      space apart; the path, unchanged, is the last word. */
  lemma CommandShape(path: string, attrs: seq<Entry>)
    requires Outcome(path, attrs).Ok?
    ensures var cmd := Outcome(path, attrs).value;
            && cmd == Tool + " " + Join(Fragments(attrs) + [path], " ")
            && |cmd| > |path| + |Tool|
            && cmd[..|Tool| + 1] == Tool + " "
            && cmd[|cmd| - |path| - 1..] == " " + path
  {
    var fs := Fragments(attrs);
    assert [Tool] + fs + [path] == [Tool] + (fs + [path]);
    JoinCons(Tool, fs + [path], " ");
    var cmd := Outcome(path, attrs).value;
    assert cmd == Tool + " " + Join(fs + [path], " ");
    if fs == [] {
      assert fs + [path] == [path];
    } else {
      JoinSnoc(fs, path, " ");
    }
  }

  /** With unique keys the result does not depend on the order of the keys,
      except for the order they are listed in when the call raises. */
  lemma KeyOrderIrrelevant(path: string, a: seq<Entry>, b: seq<Entry>)
    requires DistinctKeys(a) && DistinctKeys(b)
    requires forall e :: e in a <==> e in b
    ensures Outcome(path, a).Err? <==> Outcome(path, b).Err?
    ensures Outcome(path, a).Ok? ==> Outcome(path, a) == Outcome(path, b)
  {
    GetIgnoresOrder(a, b, WidthKey);
    GetIgnoresOrder(a, b, HeightKey);
    GetIgnoresOrder(a, b, ResizeMethodKey);
    GetIgnoresOrder(a, b, GravityKey);
    GetIgnoresOrder(a, b, FormatKey);
    RaisesIff(path, a);
    RaisesIff(path, b);
  }

  // Worked cases

  /** A command line with a single fragment. */
  lemma CommandLineOfOne(path: string, fragment: string)
    ensures CommandLine(path, [fragment]) == Tool + " " + fragment + " " + path
  {
    assert [Tool] + [fragment] + [path] == [Tool] + [fragment, path];
    JoinCons(Tool, [fragment, path], " ");
    assert [fragment, path] == [fragment] + [path];
    JoinCons(fragment, [path], " ");
  }

  /** Width and Height alone: both consumed, one resize fragment. */
  lemma ResizeOnly(w: string, h: string)
    ensures Leftover([Entry(WidthKey, w), Entry(HeightKey, h)]) == []
    ensures Fragments([Entry(WidthKey, w), Entry(HeightKey, h)]) == [ResizeFragment(Some(w), Some(h))]
  {
    var eh := [Entry(HeightKey, h)];
    var attrs := [Entry(WidthKey, w)] + eh;
    assert attrs == [Entry(WidthKey, w), Entry(HeightKey, h)];
    KnownKeysDiffer();
    KeysCons(Entry(WidthKey, w), eh);
    KeysCons(Entry(HeightKey, h), []);
    assert [Entry(HeightKey, h)] + [] == eh;
    WithoutCons(Entry(WidthKey, w), eh, Consumed(None));
    WithoutCons(Entry(HeightKey, h), [], Consumed(None));
  }

  /** `alter_image(path, attributes: {"Width" => w, "Height" => h})` runs
      `mogrify -resize {w}x{h} {path}`. */
  lemma ResizeCommand(path: string, w: string, h: string)
    ensures Outcome(path, [Entry(WidthKey, w), Entry(HeightKey, h)]) == Ok("mogrify -resize " + w + "x" + h + " " + path)
  {
    ResizeOnly(w, h);
    var frag := ResizeFragment(Some(w), Some(h));
    CommandLineOfOne(path, frag);
    assert Tool + " " + frag + " " + path == "mogrify -resize " + w + "x" + h + " " + path;
  }

  /** Crop with a width and a height: all consumed, one crop fragment with
      the default gravity code. */
  lemma CropOnly(w: string, h: string)
    ensures Leftover([Entry(ResizeMethodKey, Crop), Entry(WidthKey, w), Entry(HeightKey, h)]) == []
    ensures Fragments([Entry(ResizeMethodKey, Crop), Entry(WidthKey, w), Entry(HeightKey, h)])
         == [CropFragment(Some(w), Some(h), GravityName(DefaultGravity))]
  {
    var eh := [Entry(HeightKey, h)];
    var ew := [Entry(WidthKey, w)] + eh;
    var attrs := [Entry(ResizeMethodKey, Crop)] + ew;
    assert attrs == [Entry(ResizeMethodKey, Crop), Entry(WidthKey, w), Entry(HeightKey, h)];
    KnownKeysDiffer();
    KeysCons(Entry(ResizeMethodKey, Crop), ew);
    KeysCons(Entry(WidthKey, w), eh);
    KeysCons(Entry(HeightKey, h), []);
    assert [Entry(HeightKey, h)] + [] == eh;
    var consumed := Consumed(Some(Crop));
    WithoutCons(Entry(ResizeMethodKey, Crop), ew, consumed);
    WithoutCons(Entry(WidthKey, w), eh, consumed);
    WithoutCons(Entry(HeightKey, h), [], consumed);
  }

  /** Crop without a Gravity crops around the centre. */
  lemma CropCommand(path: string, w: string, h: string)
    ensures Outcome(path, [Entry(ResizeMethodKey, Crop), Entry(WidthKey, w), Entry(HeightKey, h)])
         == Ok("mogrify " + CropFragment(Some(w), Some(h), "Center") + " " + path)
  {
    CropOnly(w, h);
    GravityEntries();
    assert GravityName(DefaultGravity) == "Center";
    CommandLineOfOne(path, CropFragment(Some(w), Some(h), "Center"));
    assert Tool + " " == "mogrify ";
  }

  /** A key alter_image does not know makes it raise, naming the key. */
  lemma UnhandledKey(path: string, v: string)
    ensures Outcome(path, [Entry("Quality", v)]) == Err("I haven't dealt with all the parameters (Quality)")
  {
    var attrs := [Entry("Quality", v)];
    KeysCons(attrs[0], []);
    assert [attrs[0]] + [] == attrs;
    WithoutCons(attrs[0], [], Consumed(None));
    assert Leftover(attrs) == attrs;
    assert Keys(attrs) == ["Quality"];
  }

  /** Without Crop, Gravity is left over along with unknown keys, in the
      order the caller gave them. */
  lemma QualityWidthGravity(q: string, w: string, g: string)
    ensures Leftover([Entry("Quality", q), Entry(WidthKey, w), Entry(GravityKey, g)])
         == [Entry("Quality", q), Entry(GravityKey, g)]
  {
    var eg := [Entry(GravityKey, g)];
    var ew := [Entry(WidthKey, w)] + eg;
    var attrs := [Entry("Quality", q)] + ew;
    assert attrs == [Entry("Quality", q), Entry(WidthKey, w), Entry(GravityKey, g)];
    KnownKeysDiffer();
    KeysCons(Entry("Quality", q), ew);
    KeysCons(Entry(WidthKey, w), eg);
    KeysCons(Entry(GravityKey, g), []);
    assert [Entry(GravityKey, g)] + [] == eg;
    var consumed := Consumed(None);
    WithoutCons(Entry("Quality", q), ew, consumed);
    WithoutCons(Entry(WidthKey, w), eg, consumed);
    WithoutCons(Entry(GravityKey, g), [], consumed);
  }

  /** The message for two leftover keys. The keys are a parameter fixed by
      `requires` so that Join is not unfolded on a literal. */
  lemma QualityGravityMessage(keys: seq<string>)
    requires keys == ["Quality", "Gravity"]
    ensures LeftoverMessage(keys) == "I haven't dealt with all the parameters (Quality, Gravity)"
  {
    assert keys == ["Quality"] + ["Gravity"];
    JoinCons("Quality", ["Gravity"], ", ");
  }

  /** The message lists every leftover key in insertion order. */
  lemma GravityWithoutCrop(path: string, q: string, w: string, g: string)
    ensures Outcome(path, [Entry("Quality", q), Entry(WidthKey, w), Entry(GravityKey, g)])
         == Err("I haven't dealt with all the parameters (Quality, Gravity)")
  {
    QualityWidthGravity(q, w, g);
    var rest := [Entry("Quality", q), Entry(GravityKey, g)];
    assert rest == [rest[0]] + [rest[1]];
    KeysCons(rest[0], [rest[1]]);
    QualityGravityMessage(Keys(rest));
  }

  /** Height alone: `mogrify -resize x{h} {path}`, the missing width
      interpolating as the empty string. */
  lemma ResizeHeightOnly(path: string, h: string)
    ensures Outcome(path, [Entry(HeightKey, h)]) == Ok("mogrify -resize x" + h + " " + path)
  {
    var attrs := [Entry(HeightKey, h)];
    KnownKeysDiffer();
    KeysCons(attrs[0], []);
    assert [attrs[0]] + [] == attrs;
    WithoutCons(attrs[0], [], Consumed(None));
    assert Leftover(attrs) == [];
    assert Fragments(attrs) == [ResizeFragment(None, Some(h))];
    var frag := ResizeFragment(None, Some(h));
    assert frag == "-resize x" + h;
    CommandLineOfOne(path, frag);
    assert Tool + " " + frag + " " + path == "mogrify -resize x" + h + " " + path;
  }

  /** A sizing fragment is emitted exactly when there is no resize method and
      a width or height is given, or the method is Crop. */
  lemma SizingIff(attrs: seq<Entry>)
    ensures var m := Get(attrs, ResizeMethodKey);
      |Fragments(attrs)| == |FormatFragments(Get(attrs, FormatKey))| + (
        if (m.None? && (Get(attrs, WidthKey).Some? || Get(attrs, HeightKey).Some?)) || m == Some(Crop) then 1 else 0)
  {
  }

  /** Without a resize method, a width or a height gives `-resize {W}x{H}`
      as the first fragment, a missing side interpolating as the empty
      string. */
  lemma ResizeFragmentIs(attrs: seq<Entry>)
    requires Get(attrs, ResizeMethodKey).None?
    requires Get(attrs, WidthKey).Some? || Get(attrs, HeightKey).Some?
    ensures Fragments(attrs)[0]
         == "-resize " + Get(attrs, WidthKey).GetOr("") + "x" + Get(attrs, HeightKey).GetOr("")
  {
  }

  /** A fragment that sets the output format. */
  predicate IsFormatFragment(f: string) {
    |f| >= |FormatOption| && f[..|FormatOption|] == FormatOption
  }

  /** `-format` appears exactly when Format is given, and then last. */
  lemma FormatLast(attrs: seq<Entry>)
    ensures var fs := Fragments(attrs);
      (exists i :: 0 <= i < |fs| && IsFormatFragment(fs[i])) <==> Get(attrs, FormatKey).Some?
    ensures var fs := Fragments(attrs);
      Get(attrs, FormatKey).Some? ==> fs[|fs| - 1] == FormatFragment(Get(attrs, FormatKey))
  {
    var sizing := SizingFragments(Get(attrs, WidthKey), Get(attrs, HeightKey),
                                  Get(attrs, ResizeMethodKey), Get(attrs, GravityKey));
    forall f | f in sizing ensures !IsFormatFragment(f) {
      assert f[1] != FormatOption[1];
    }
    var fs := Fragments(attrs);
    if Get(attrs, FormatKey).Some? {
      var i := |fs| - 1;
      assert fs[i][..|FormatOption|] == FormatOption;
    } else {
      assert fs == sizing;
    }
  }
  /** Under Crop the gravity is looked up in GRAVITIES from the given code,
      or from `C` when none is given; an unknown code gives an empty gravity
      and does not raise, because Gravity is consumed either way. */
  lemma CropGravity(attrs: seq<Entry>)
    requires Get(attrs, ResizeMethodKey) == Some(Crop)
    ensures var code := Get(attrs, GravityKey).GetOr(DefaultGravity);
      Fragments(attrs)[0]
      == CropFragment(Get(attrs, WidthKey), Get(attrs, HeightKey), if code in Gravities then Gravities[code] else "")
    ensures Get(attrs, GravityKey).None? ==>
      Fragments(attrs)[0] == CropFragment(Get(attrs, WidthKey), Get(attrs, HeightKey), "Center")
    ensures GravityKey !in Keys(Leftover(attrs))
  {
    GravityEntries();
    WithoutMembers(attrs, Consumed(Some(Crop)));
  }
}
