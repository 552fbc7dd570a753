/**
 * The second half of `getObjects`: each entity the scanner found is turned
 * into a scene object by a switch on its keyword, reading its attributes from
 * a window of the paragraph around it, and the durations that hold no number
 * are then filtered out.
 */
module Dispatcher {
  import opened Wrappers
  import opened Text
  import opened Vocabulary
  import opened Scanner
  import opened Extractors

  /**
   * `!url && getQuote(str)` of panoramas and pictures: `false` when a URL was
   * found, otherwise what `getQuote` gives (a string or undefined).
   */
  datatype Caption = Suppressed | Quoted(quote: Option<string>)

  /** The objects `getObjects` returns, one constructor per `type`. */
  datatype Descriptor =
    | Duration(value: nat)
    | Background(color: string)
    | Audio(src: Option<string>, position: Vec3)
    | Voiceover(speech: Option<string>)
    | Chart(src: Option<string>, position: Vec3, rotation: Vec3, scale: Vec3)
    | Panorama(src: Option<string>, caption: Caption)
    | Video(src: Option<string>, position: Vec3, scale: Vec3, rotation: Vec3)
    | Videosphere(src: Option<string>)
    | Image(src: Option<string>, caption: Caption, position: Vec3, scale: Vec3, rotation: Vec3)
    | TextPanel(text: string, position: Vec3, scale: Vec3, rotation: Vec3)
    | Model(src: Option<string>, mtl: MtlRef, extension: Option<string>, position: Vec3, scale: Vec3, rotation: Vec3)
      /** An entity no case of the switch names, returned as the scanner recorded it. */
    | Raw(kind: string, index: nat)

  /** The `TypeError`s the switch can raise: a property read from a failed match or an undefined quote. */
  datatype Failure = NoBackgroundColor | NoFondoColor | NoCaption

  /** What the mapping function does for one entity: returns `false`, returns an object, or throws. */
  datatype Step = Dropped | Emitted(descriptor: Descriptor) | Thrown(failure: Failure)

  predicate IsDurationKind(k: string) { k == "seconds" || k == "second" || k == "⏲" || k == "segundos" }
  predicate IsAudioKind(k: string) { k == "audio" || k == "sound" || k == "🔊" }
  predicate IsVoiceoverKind(k: string) { k == "voiceover" || k == "voz en off" || k == "📢" }
  predicate IsChartKind(k: string) { k == "chart" || k == "gráfico" || k == "📊" }
  predicate IsPanoramaKind(k: string) { k == "panorama" || k == "🌅" }
  predicate IsVideosphereKind(k: string) { k == "videosphere" || k == "video esfera" || k == "🎥" }
  predicate IsImageKind(k: string) { k == "image" || k == "picture" || k == "foto" }
  predicate IsTextKind(k: string) { k == "text" || k == "texto" || k == "📝" }
  predicate IsModelKind(k: string) { k == "model" || k == "modelo" }

  /** The keywords some case of the two switches names, compared exactly (so in lower case). */
  predicate IsNamedKind(k: string) {
    IsDurationKind(k) || k == "background" || IsAudioKind(k) || IsVoiceoverKind(k) || IsChartKind(k)
    || IsPanoramaKind(k) || k == "video" || IsVideosphereKind(k) || IsImageKind(k) || IsTextKind(k)
    || IsModelKind(k) || k == "fondo"
  }

  /**
   * The text a backward-looking attribute is read from: from the previous
   * entity's index plus the length of its keyword (its keyword's last character
   * when that match began with a delimiter), or from the start of the
   * paragraph, to one past the end of this entity's keyword, measured from its
   * index.
   */
  function BackwardWindow(p: string, ts: seq<Token>, i: nat): (w: string)
    requires i < |ts|
    ensures var lo := if i != 0 then ts[i - 1].index + |ts[i - 1].kind| else 0;
      var stop := ts[i].index + |ts[i].kind| + 1;
      lo <= stop && lo <= |p| ==>
        lo + |w| <= |p| && w == p[lo..lo + |w|] && lo + |w| == (if stop <= |p| then stop else |p|)
  {
    var stop := ts[i].index + |ts[i].kind| + 1;
    if i != 0 then Substring(p, ts[i - 1].index + |ts[i - 1].kind|, stop) else Substring(p, 0, stop)
  }

  /** The text the other attributes are read from: from this entity's index to one past the next one's. */
  function ForwardWindow(p: string, ts: seq<Token>, i: nat): (w: string)
    requires i < |ts|
    ensures var lo := ts[i].index;
      lo <= |p| && (i + 1 < |ts| ==> lo <= ts[i + 1].index + 1) ==>
        lo + |w| <= |p| && w == p[lo..lo + |w|]
        && (i + 1 == |ts| ==> lo + |w| == |p|)
        && (i + 1 < |ts| ==> lo + |w| == if ts[i + 1].index + 1 <= |p| then ts[i + 1].index + 1 else |p|)
  {
    if i == |ts| - 1 then Substring(p, ts[i].index, |p|) else Substring(p, ts[i].index, ts[i + 1].index + 1)
  }

  /** The `type` field of an object: one tag per type string the switch writes, or an unnamed entity's own keyword. */
  datatype ObjectTag =
    | DurationTag | BackgroundTag | AudioTag | VoiceoverTag | ChartTag | PanoramaTag
    | VideoTag | VideosphereTag | ImageTag | TextTag | ModelTag | Unnamed(kind: string)

  /** The `type` the mapping function gives the object of an entity with keyword `kind`. */
  function ObjectType(kind: string): ObjectTag {
    if IsDurationKind(kind) then DurationTag
    else if kind == "background" then BackgroundTag
    else ForwardType(kind)
  }

  /** The `type` of the object the `switch` returns for keyword `kind`; an unnamed entity keeps its own. */
  function ForwardType(kind: string): ObjectTag {
    if IsAudioKind(kind) then AudioTag
    else if IsVoiceoverKind(kind) then VoiceoverTag
    else if IsChartKind(kind) then ChartTag
    else if IsPanoramaKind(kind) then PanoramaTag
    else if kind == "video" then VideoTag
    else if IsVideosphereKind(kind) then VideosphereTag
    else if IsImageKind(kind) then ImageTag
    else if IsTextKind(kind) then TextTag
    else if IsModelKind(kind) then ModelTag
    else if kind == "fondo" then BackgroundTag
    else Unnamed(kind)
  }

  /** The `type` field of an object. */
  function TypeName(d: Descriptor): ObjectTag {
    match d
    case Duration(_) => DurationTag
    case Background(_) => BackgroundTag
    case Audio(_, _) => AudioTag
    case Voiceover(_) => VoiceoverTag
    case Chart(_, _, _, _) => ChartTag
    case Panorama(_, _) => PanoramaTag
    case Video(_, _, _, _) => VideoTag
    case Videosphere(_) => VideosphereTag
    case Image(_, _, _, _, _) => ImageTag
    case TextPanel(_, _, _, _) => TextTag
    case Model(_, _, _, _, _, _) => ModelTag
    case Raw(kind, _) => Unnamed(kind)
  }

  /**
   * The mapping function of `getObjects` applied to entity number `i`:
   * `false` only for a duration, a throw only for a background, a text or a
   * fondo (`ObjectTypeOfEntity` gives the type of the objects).
   */
  function Describe(p: string, ts: seq<Token>, i: nat): (r: Step)
    requires i < |ts|
    ensures r.Dropped? ==> IsDurationKind(ts[i].kind)
    ensures r.Thrown? ==> ts[i].kind == "background" || IsTextKind(ts[i].kind) || ts[i].kind == "fondo"
  {
    var kind := ts[i].kind;
    if IsDurationKind(kind) then
      match DurationValue(BackwardWindow(p, ts, i))
      case None => Dropped
      case Some(v) => Emitted(Duration(v))
    else if kind == "background" then
      match BackgroundColor(BackwardWindow(p, ts, i))
      case None => Thrown(NoBackgroundColor)
      case Some(c) => Emitted(Background(c))
    else
      DescribeForward(ForwardWindow(p, ts, i), ts[i])
  }

  /**
   * The `switch` on the entity's keyword, reading from the forward window
   * `str`: it never returns `false` and throws only for a text or a fondo
   * (`ForwardObjectType` gives the type of the objects).
   */
  function DescribeForward(str: string, t: Token): (r: Step)
    ensures !r.Dropped?
    ensures r.Thrown? ==> IsTextKind(t.kind) || t.kind == "fondo"
  {
    var kind := t.kind;
    if IsAudioKind(kind) then Emitted(AudioOf(str))
    else if IsVoiceoverKind(kind) then Emitted(Voiceover(GetQuote(str)))
    else if IsChartKind(kind) then Emitted(ChartOf(str))
    else if IsPanoramaKind(kind) then Emitted(PanoramaOf(str))
    else if kind == "video" then Emitted(VideoOf(str))
    else if IsVideosphereKind(kind) then Emitted(Videosphere(GetUrl(str, None)))
    else if IsImageKind(kind) then Emitted(ImageOf(str))
    else if IsTextKind(kind) then TextStep(str)
    else if IsModelKind(kind) then Emitted(ModelOf(str))
    else if kind == "fondo" then FondoStep(str)
    else Emitted(Raw(t.kind, t.index))
  }

  /** The object the `switch` returns carries the `type` its keyword names. */
  lemma ForwardObjectType(str: string, t: Token)
    ensures DescribeForward(str, t).Emitted? ==> TypeName(DescribeForward(str, t).descriptor) == ForwardType(t.kind)
  {
    var r := DescribeForward(str, t);
    if r.Emitted? {
      TypeNameOfTag(r.descriptor);
    }
  }

  /** `TypeName` read off the descriptor's constructor. */
  lemma TypeNameOfTag(d: Descriptor)
    ensures d.Duration? ==> TypeName(d) == DurationTag
    ensures d.Background? ==> TypeName(d) == BackgroundTag
    ensures d.Audio? ==> TypeName(d) == AudioTag
    ensures d.Voiceover? ==> TypeName(d) == VoiceoverTag
    ensures d.Chart? ==> TypeName(d) == ChartTag
    ensures d.Panorama? ==> TypeName(d) == PanoramaTag
    ensures d.Video? ==> TypeName(d) == VideoTag
    ensures d.Videosphere? ==> TypeName(d) == VideosphereTag
    ensures d.Image? ==> TypeName(d) == ImageTag
    ensures d.TextPanel? ==> TypeName(d) == TextTag
    ensures d.Model? ==> TypeName(d) == ModelTag
    ensures d.Raw? ==> TypeName(d) == Unnamed(d.kind)
  { }

  function AudioOf(str: string): (d: Descriptor)
    ensures d.Audio?
  {
    Audio(GetUrl(str, None), GetPosition(str, 0.0, 0.0))
  }

  function ChartOf(str: string): (d: Descriptor)
    ensures d.Chart?
  {
    Chart(GetUrl(str, None), GetPosition(str, 10.0, 10.0), GetRotation(str), GetSize(str))
  }

  function PanoramaOf(str: string): (d: Descriptor)
    ensures d.Panorama?
  {
    var url := GetUrl(str, None);
    Panorama(url, CaptionFor(url, str))
  }

  function VideoOf(str: string): (d: Descriptor)
    ensures d.Video?
  {
    Video(GetUrl(str, None), GetPosition(str, 0.0, 0.0), GetSize(str), GetRotation(str))
  }

  function ImageOf(str: string): (d: Descriptor)
    ensures d.Image?
  {
    var url := GetUrl(str, None);
    Image(url, CaptionFor(url, str), GetPosition(str, 0.0, 0.0), GetSize(str), GetRotation(str))
  }

  /** The `text` case: `text.length` throws when there is no quote. */
  function TextStep(str: string): (r: Step)
    ensures r.Emitted? ==> r.descriptor.TextPanel?
    ensures r.Thrown? <==> GetQuote(str).None?
  {
    match GetQuote(str)
    case None => Thrown(NoCaption)
    case Some(text) =>
      Emitted(TextPanel(text, GetPosition(str, 14.0, |text| as real / 30.0), Scale(GetSize(str), 5.0), GetRotation(str)))
  }

  function ModelOf(str: string): (d: Descriptor)
    ensures d.Model?
  {
    var source := GetModelSource(str);
    Model(source.src, source.mtl, source.extension,
      ConvertModelPosition(GetPosition(str, 0.0, 0.0)), GetSize(str), GetRotation(str))
  }

  /** The `fondo` case: reading the capture of a failed match throws. */
  function FondoStep(str: string): (r: Step)
    ensures r.Emitted? ==> r.descriptor.Background?
    ensures r.Thrown? <==> FondoColor(str).None?
  {
    match FondoColor(str)
    case None => Thrown(NoFondoColor)
    case Some(c) => Emitted(Background(c))
  }

  /** `!url && getQuote(str)`. */
  function CaptionFor(url: Option<string>, str: string): Caption {
    if url.Some? then Suppressed else Quoted(GetQuote(str))
  }

  /** `entities.map(…)`: one step per entity, in order. */
  function Steps(p: string, ts: seq<Token>): (steps: seq<Step>)
    ensures |steps| == |ts|
    ensures forall i :: 0 <= i < |ts| ==> steps[i] == Describe(p, ts, i)
  {
    seq(|ts|, i requires 0 <= i < |ts| => Describe(p, ts, i))
  }

  /**
   * The map stops at the first step that throws; otherwise `filter(!!entity)`
   * drops the `false` of each failed duration and keeps every object in order.
   */
  function Collect(steps: seq<Step>): Result<seq<Descriptor>, Failure> {
    if |steps| == 0 then Ok([])
    else
      match steps[0]
      case Thrown(f) => Err(f)
      case Dropped => Collect(steps[1..])
      case Emitted(d) =>
        match Collect(steps[1..])
        case Err(f) => Err(f)
        case Ok(ds) => Ok([d] + ds)
  }

  /** `getObjects(p)`. */
  function Objects(p: string): Result<seq<Descriptor>, Failure> {
    Collect(Steps(p, Tokens(p)))
  }

  /** `getObjects`, with its scanning loop. */
  method GetObjects(p: string) returns (r: Result<seq<Descriptor>, Failure>)
    ensures r == Objects(p)
  {
    var entities := ScanEntities(EntityKeywords, p);
    r := Collect(Steps(p, entities));
  }

  // ---------------------------------------------------------------------------
  // What the map and the filter do with the steps

  /** `filter(!!entity)` over steps none of which threw: the objects, in order. */
  function Kept(steps: seq<Step>): seq<Descriptor> {
    if |steps| == 0 then []
    else (if steps[0].Emitted? then [steps[0].descriptor] else []) + Kept(steps[1..])
  }

  /** The filter keeps each object and drops each `false`, and distributes over concatenation. */
  lemma {:induction false} KeptIsFilter(a: seq<Step>, b: seq<Step>)
    ensures Kept(a + b) == Kept(a) + Kept(b)
    ensures forall d :: Kept([Emitted(d)]) == [d]
    ensures Kept([Dropped]) == []
    decreases |a|
  {
    if |a| > 0 {
      KeptIsFilter(a[1..], b);
      assert (a + b)[1..] == a[1..] + b;
    } else {
      assert a + b == b;
    }
    forall d ensures Kept([Emitted(d)]) == [d] {
      assert [Emitted(d)][1..] == [];
    }
    assert [Dropped][1..] == [];
  }

  /** Where nothing was dropped, the k-th object is the k-th step's. */
  lemma {:induction false} KeptWithoutDrops(steps: seq<Step>)
    requires forall k :: 0 <= k < |steps| ==> steps[k].Emitted?
    ensures |Kept(steps)| == |steps|
    ensures forall k :: 0 <= k < |steps| ==> Kept(steps)[k] == steps[k].descriptor
  {
    if |steps| > 0 {
      KeptWithoutDrops(steps[1..]);
      assert forall k :: 1 <= k < |steps| ==> Kept(steps)[k] == Kept(steps[1..])[k - 1];
    }
  }

  /** No step before `k` threw. */
  predicate NoneThrownBefore(steps: seq<Step>, k: nat)
    requires k <= |steps|
  {
    forall j :: 0 <= j < k ==> !steps[j].Thrown?
  }

  /**
   * The result is an error exactly when some step threw, and then it is the
   * first step's error; otherwise it is every returned object, in order.
   */
  lemma {:induction false} CollectSpec(steps: seq<Step>)
    ensures Collect(steps).Ok? <==> NoneThrownBefore(steps, |steps|)
    ensures Collect(steps).Ok? ==> Collect(steps).value == Kept(steps)
    ensures Collect(steps).Err? ==>
      exists k :: 0 <= k < |steps| && steps[k] == Thrown(Collect(steps).error) && NoneThrownBefore(steps, k)
  {
    if |steps| > 0 {
      var rest := steps[1..];
      CollectSpec(rest);
      assert forall j :: 1 <= j < |steps| ==> steps[j] == rest[j - 1];
      if Collect(steps).Err? && !steps[0].Thrown? {
        var k :| 0 <= k < |rest| && rest[k] == Thrown(Collect(rest).error) && NoneThrownBefore(rest, k);
        assert steps[k + 1] == rest[k];
      }
    }
  }

  // ---------------------------------------------------------------------------
  // One entity

  /** A duration entity is dropped exactly when its backward window holds no duration; nothing else is. */
  lemma DroppedIff(p: string, ts: seq<Token>, i: nat)
    requires i < |ts|
    ensures Describe(p, ts, i) == Dropped <==>
      IsDurationKind(ts[i].kind) && !ContainsDuration(BackwardWindow(p, ts, i))
  {
    DurationValueSpec(BackwardWindow(p, ts, i));
  }

  /**
   * A duration entity whose backward window holds a duration is the number
   * written by all the digits of the first duration expression there.
   */
  lemma DurationFromBackwardWindow(p: string, ts: seq<Token>, i: nat)
    requires i < |ts| && IsDurationKind(ts[i].kind) && ContainsDuration(BackwardWindow(p, ts, i))
    ensures Describe(p, ts, i).Emitted? && Describe(p, ts, i).descriptor.Duration?
    ensures var w := BackwardWindow(p, ts, i);
      exists a: nat, b: nat :: FirstDuration(w, a, b) && Describe(p, ts, i) == Emitted(Duration(DecimalValue(w[a..b])))
  {
    DurationValueSpec(BackwardWindow(p, ts, i));
  }

  /** Every object the mapping function gives has the type its entity's keyword names. */
  lemma ObjectTypeOfEntity(p: string, ts: seq<Token>, i: nat)
    requires i < |ts|
    ensures Describe(p, ts, i).Emitted? ==> TypeName(Describe(p, ts, i).descriptor) == ObjectType(ts[i].kind)
  {
    var r := Describe(p, ts, i);
    if r.Emitted? {
      TypeNameOfTag(r.descriptor);
      if !IsDurationKind(ts[i].kind) && ts[i].kind != "background" {
        ForwardObjectType(ForwardWindow(p, ts, i), ts[i]);
      }
    }
  }

  /**
   * The switch throws exactly for a background with no colour before it, a
   * text with no quote after it, and a fondo with no hex code after it, each
   * with its own error.
   */
  lemma ThrownIff(p: string, ts: seq<Token>, i: nat)
    requires i < |ts|
    ensures var kind := ts[i].kind; var back := BackwardWindow(p, ts, i); var fwd := ForwardWindow(p, ts, i);
      Describe(p, ts, i).Thrown? <==>
        (kind == "background" && BackgroundColor(back).None?)
        || (IsTextKind(kind) && GetQuote(fwd).None?)
        || (kind == "fondo" && FondoColor(fwd).None?)
    ensures Describe(p, ts, i) == Thrown(NoBackgroundColor) ==> ts[i].kind == "background"
    ensures Describe(p, ts, i) == Thrown(NoCaption) ==> IsTextKind(ts[i].kind)
    ensures Describe(p, ts, i) == Thrown(NoFondoColor) ==> ts[i].kind == "fondo"
  {
    var kind := ts[i].kind;
    if IsDurationKind(kind) || kind == "background" {
      assert !IsTextKind(kind) && kind != "fondo";
    } else {
      ForwardThrownIff(ForwardWindow(p, ts, i), ts[i]);
      ForwardErrors(ForwardWindow(p, ts, i), ts[i]);
    }
  }

  lemma ForwardThrownIff(str: string, t: Token)
    ensures DescribeForward(str, t).Thrown? <==>
      (IsTextKind(t.kind) && GetQuote(str).None?) || (!IsTextKind(t.kind) && t.kind == "fondo" && FondoColor(str).None?)
  {
    ForwardErrors(str, t);
    if IsTextKind(t.kind) {
      ForwardTextCase(str, t);
    } else if t.kind == "fondo" {
      ForwardFondoCase(str, t);
    }
  }

  /** A text keyword reaches the `text` case of the switch. */
  lemma ForwardTextCase(str: string, t: Token)
    requires IsTextKind(t.kind)
    ensures DescribeForward(str, t).Thrown? <==> GetQuote(str).None?
  {
    NotBeforeText(t.kind);
  }

  /** `fondo` reaches the last case of the switch. */
  lemma ForwardFondoCase(str: string, t: Token)
    requires t.kind == "fondo"
    ensures DescribeForward(str, t).Thrown? <==> FondoColor(str).None?
  {
    NotBeforeFondo(t.kind);
  }

  /** The keywords of the `text` case are named by no earlier case. */
  lemma NotBeforeText(k: string)
    requires IsTextKind(k)
    ensures !IsAudioKind(k) && !IsVoiceoverKind(k) && !IsChartKind(k) && !IsPanoramaKind(k)
      && k != "video" && !IsVideosphereKind(k) && !IsImageKind(k)
  {
  }

  /** `fondo` is named by no earlier case. */
  lemma NotBeforeFondo(k: string)
    requires k == "fondo"
    ensures !IsAudioKind(k) && !IsVoiceoverKind(k) && !IsChartKind(k) && !IsPanoramaKind(k)
      && k != "video" && !IsVideosphereKind(k) && !IsImageKind(k) && !IsTextKind(k) && !IsModelKind(k)
  {
  }

  /** The forward switch never drops an entity, and each error comes from its own case. */
  lemma ForwardErrors(str: string, t: Token)
    ensures DescribeForward(str, t) == Thrown(NoCaption) ==> IsTextKind(t.kind)
    ensures DescribeForward(str, t) == Thrown(NoFondoColor) ==> t.kind == "fondo"
    ensures !DescribeForward(str, t).Dropped?
  {
  }

  /**
   * What makes each crash: no `<colour> background` anywhere in the backward
   * window, no `fondo #<hex>` anywhere in the forward one.
   */
  lemma CrashPatterns(back: string, fwd: string)
    ensures BackgroundColor(back).None? <==> forall k: nat :: BackgroundTokenEnd(back, k).None?
    ensures BackgroundColor(back).None? <==> forall i: nat, j: nat :: !ColourBeforeSuffix(back, i, j)
    ensures FondoColor(fwd).None? <==> forall k: nat :: FondoHexEnd(fwd, k).None?
  {
    BackgroundColorIsToken(back);
  }

  /** A keyword no case names, such as one not written in lower case, is passed through as recorded. */
  lemma UnnamedKindIsRaw(p: string, ts: seq<Token>, i: nat)
    requires i < |ts| && !IsNamedKind(ts[i].kind)
    ensures Describe(p, ts, i) == Emitted(Raw(ts[i].kind, ts[i].index))
  {
  }

  /** A panorama or a picture has a caption only when it has no URL, and then the caption is the quote. */
  lemma CaptionOnlyWithoutUrl(str: string)
    ensures forall d :: d == PanoramaOf(str) || d == ImageOf(str) ==>
      d.src == GetUrl(str, None)
        && (d.src.Some? <==> d.caption == Suppressed)
        && (d.src.None? ==> d.caption == Quoted(GetQuote(str)))
  {
  }

  /** The `text` case throws exactly when the window holds no quote. */
  lemma TextStepThrowsIff(str: string)
    ensures TextStep(str).Thrown? <==> GetQuote(str).None?
    ensures TextStep(str).Thrown? ==> TextStep(str) == Thrown(NoCaption)
    ensures TextStep(str).Emitted? ==> TextStep(str).descriptor.TextPanel? && TextStep(str).descriptor.text == GetQuote(str).value
  {
  }

  /**
   * A text is scaled five times as much as a picture in the same window would
   * be, turned the same way, and has no quote mark left in it.
   */
  lemma TextPanelScale(str: string)
    requires GetQuote(str).Some?
    ensures var d := TextStep(str).descriptor;
      d.TextPanel? && d.scale == Scale(ImageOf(str).scale, 5.0) && d.rotation == ImageOf(str).rotation
      && '"' !in d.text
  {
  }

  /**
   * Without location and size words a text hangs on the front wall as a panel
   * 14 wide and a thirtieth of its length high, centred at eye height, at scale 5.
   */
  lemma TextPanelLayout(str: string)
    requires GetQuote(str).Some? && FindWord(str, LocationWords).None? && FindWord(str, SizeWords).None?
    ensures var q := GetQuote(str).value;
      TextStep(str) == Emitted(TextPanel(q, Vec3(-7.0, EyeHeight - |q| as real / 60.0, -WallDistance),
        Vec3(5.0, 5.0, 5.0), Vec3(0.0, 0.0, 0.0)))
  {
    var q := GetQuote(str).value;
    DefaultPlacement(str, 14.0, |q| as real / 30.0);
    DefaultSize(str);
  }

  /**
   * A model stands 3 units below where any other object would be placed, on
   * the file `GetModelSource` picks; without a location word it stands on the
   * front wall's line at height -1.4.
   */
  lemma ModelPlacement(str: string)
    ensures var d := ModelOf(str); var m := GetModelSource(str);
      d.src == m.src && d.mtl == m.mtl && d.extension == m.extension
      && d.position.y == GetPosition(str, 0.0, 0.0).y - 3.0
      && d.position.x == GetPosition(str, 0.0, 0.0).x && d.position.z == GetPosition(str, 0.0, 0.0).z
    ensures var d := ModelOf(str);
      FindWord(str, LocationWords).None? ==> d.position == Vec3(0.0, EyeHeight - 3.0, -WallDistance)
  {
    if FindWord(str, LocationWords).None? {
      DefaultPlacement(str, 0.0, 0.0);
    }
  }

  // ---------------------------------------------------------------------------
  // A whole paragraph

  /**
   * `getObjects` fails exactly when some entity's step throws, with the error
   * of the first; otherwise it returns the objects of the entities in the
   * order they were found, without the dropped durations, and with nothing
   * dropped the k-th object is the k-th entity's.
   */
  lemma ObjectsSpec(p: string)
    ensures var ts := Tokens(p); var steps := Steps(p, ts);
      Objects(p).Ok? <==> forall i :: 0 <= i < |ts| ==> !Describe(p, ts, i).Thrown?
    ensures var ts := Tokens(p); var steps := Steps(p, ts);
      Objects(p).Err? ==>
        exists i :: 0 <= i < |ts| && Describe(p, ts, i) == Thrown(Objects(p).error)
          && forall j :: 0 <= j < i ==> !Describe(p, ts, j).Thrown?
    ensures var ts := Tokens(p); var steps := Steps(p, ts);
      Objects(p).Ok? ==> Objects(p).value == Kept(steps)
    ensures var ts := Tokens(p);
      (forall i :: 0 <= i < |ts| ==> Describe(p, ts, i).Emitted?) ==>
        Objects(p).Ok? && |Objects(p).value| == |ts|
        && forall i :: 0 <= i < |ts| ==> Objects(p).value[i] == Describe(p, ts, i).descriptor
  {
    var ts := Tokens(p);
    var steps := Steps(p, ts);
    CollectSpec(steps);
    if forall i :: 0 <= i < |ts| ==> Describe(p, ts, i).Emitted? {
      KeptWithoutDrops(steps);
    }
    if Objects(p).Err? {
      var k :| 0 <= k < |steps| && steps[k] == Thrown(Collect(steps).error) && NoneThrownBefore(steps, k);
      assert forall j :: 0 <= j < k ==> !Describe(p, ts, j).Thrown? by {
        forall j | 0 <= j < k ensures !Describe(p, ts, j).Thrown? {
          assert steps[j] == Describe(p, ts, j);
        }
      }
    }
  }

  // ---------------------------------------------------------------------------
  // The windows around an entity

  /** Matches `a` and `a + 1` are well placed and in order. */
  predicate NeighboursPlaced(p: string, ms: seq<Match>, a: nat)
    requires a < |ms|
  {
    WellPlaced(p, ms[a]) && (a + 1 < |ms| ==> WellPlaced(p, ms[a + 1]) && ms[a].end <= ms[a + 1].index < ms[a + 1].start)
  }

  /**
   * The forward window of an entity begins at its index and holds its keyword,
   * right there or after the leading delimiter, and stops before the next
   * entity's keyword.
   */
  lemma ForwardWindowHoldsKeyword(kws: Keywords, p: string, i: nat)
    requires i < |MatchesFrom(kws, p, 0)|
    ensures var ms := MatchesFrom(kws, p, 0); var ts := TokensOf(ms); var w := ForwardWindow(p, ts, i);
      (StartsWithAt(w, 0, ts[i].kind) || StartsWithAt(w, 1, ts[i].kind))
      && (i + 1 < |ts| ==> ts[i].index + |w| <= ms[i + 1].start)
  {
    var ms := MatchesFrom(kws, p, 0);
    MatchNumber(kws, p, i);
    if i + 1 < |ms| {
      MatchNumber(kws, p, i + 1);
    }
    ForwardWindowOf(p, ms, i);
  }

  lemma ForwardWindowOf(p: string, ms: seq<Match>, i: nat)
    requires i < |ms| && NeighboursPlaced(p, ms, i)
    ensures var ts := TokensOf(ms); var w := ForwardWindow(p, ts, i);
      (StartsWithAt(w, 0, ts[i].kind) || StartsWithAt(w, 1, ts[i].kind))
      && (i + 1 < |ts| ==> ts[i].index + |w| <= ms[i + 1].start)
  {
    var ts := TokensOf(ms);
    var kind := ts[i].kind;
    var lo := ts[i].index;
    var hi := if i + 1 < |ts| then ts[i + 1].index + 1 else |p|;
    var w := ForwardWindow(p, ts, i);
    assert ts[i] == Token(ms[i].kind, ms[i].index);
    assert i + 1 < |ts| ==> ts[i + 1] == Token(ms[i + 1].kind, ms[i + 1].index);
    assert lo <= ms[i].start && ms[i].start + |kind| <= hi <= |p|;
    assert w == p[lo..hi];
    var o := ms[i].start - lo;
    SliceOfSlice(p, lo, hi, o, o + |kind|);
    assert StartsWithAt(w, o, kind);
  }

  /**
   * The backward window of an entity ends with its keyword, or with its
   * keyword and the character after it when the entity opens the paragraph.
   */
  lemma BackwardWindowEndsWithKeyword(kws: Keywords, p: string, i: nat)
    requires i < |MatchesFrom(kws, p, 0)|
    ensures var ms := MatchesFrom(kws, p, 0); var ts := TokensOf(ms); var w := BackwardWindow(p, ts, i);
      EndsWith(w, ts[i].kind) || (0 < |w| && EndsWith(w[..|w| - 1], ts[i].kind))
  {
    var ms := MatchesFrom(kws, p, 0);
    PreviousKeywordBefore(kws, p, i);
    BackwardWindowOf(p, ms, i, if i != 0 then ms[i - 1].index + |ms[i - 1].kind| else 0);
  }

  /** A recorded match is well placed, and the keyword of the match before it ends before its index. */
  lemma PreviousKeywordBefore(kws: Keywords, p: string, i: nat)
    requires i < |MatchesFrom(kws, p, 0)|
    ensures var ms := MatchesFrom(kws, p, 0);
      WellPlaced(p, ms[i]) && (i != 0 ==> ms[i - 1].index + |ms[i - 1].kind| <= ms[i].index)
  {
    MatchNumber(kws, p, i);
    if i != 0 {
      MatchNumber(kws, p, i - 1);
    }
  }

  lemma BackwardWindowOf(p: string, ms: seq<Match>, i: nat, lo: nat)
    requires i < |ms| && WellPlaced(p, ms[i]) && lo <= ms[i].index
    requires lo == if i != 0 then ms[i - 1].index + |ms[i - 1].kind| else 0
    ensures var ts := TokensOf(ms); var w := BackwardWindow(p, ts, i);
      EndsWith(w, ts[i].kind) || (0 < |w| && EndsWith(w[..|w| - 1], ts[i].kind))
  {
    var ts := TokensOf(ms);
    var m := ms[i];
    assert ts[i] == Token(m.kind, m.index);
    var stop := m.index + |m.kind| + 1;
    var hi := if stop <= |p| then stop else |p|;
    var keyEnd := m.start + |m.kind|;
    assert lo <= m.start && keyEnd <= hi <= keyEnd + 1;
    var w := BackwardWindow(p, ts, i);
    assert w == p[lo..hi];
    KeywordBeforeEnd(p, lo, hi, m.start, m.kind);
  }

  /** A slice that ends with a keyword, or with a keyword and one more character. */
  lemma KeywordBeforeEnd(p: string, lo: nat, hi: nat, start: nat, kind: string)
    requires lo <= start && start + |kind| <= hi <= start + |kind| + 1 && hi <= |p|
    requires p[start..start + |kind|] == kind
    ensures var w := p[lo..hi]; EndsWith(w, kind) || (0 < |w| && EndsWith(w[..|w| - 1], kind))
  {
    var w := p[lo..hi];
    if hi == start + |kind| {
      assert w[|w| - |kind|..] == p[start..hi];
    } else {
      assert w[..|w| - 1] == p[lo..hi - 1];
      assert w[..|w| - 1][|w| - 1 - |kind|..] == p[start..hi - 1];
    }
  }
}
