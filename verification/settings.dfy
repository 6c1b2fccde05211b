/**
 * The rules of the tile-settings panel: the number-input normaliser, the palette each mode
 * offers, the editors each tile type shows, the tile-type change that recomputes
 * `editable` and `has_num`, and the shape check on an uploaded level. The tile to place is
 * a property record from name to natural number, booleans stored as 0 or 1, exactly as
 * the pixel encoder reads it.
 */
module Settings {
  import opened Wrappers
  import opened Tiles
  import opened Records

  /** The tile to place, as a property record. */
  type TileSettings = map<string, nat>

  // ---------------------------------------------------------------------------------
  // The number input
  // ---------------------------------------------------------------------------------

  /** `s` is a nonzero step and `x` a whole multiple of it. */
  predicate Aligned(x: real, s: real) {
    s != 0.0 && (x / s).Floor as real == x / s
  }

  /** `Math.floor(x / step) * step`: the largest multiple of a positive step not above `x`. */
  function FloorToStep(x: real, step: real): (t: real)
    requires step != 0.0
    ensures Aligned(t, step)
    ensures step > 0.0 ==> t <= x < t + step
  {
    var q := (x / step).Floor;
    MultipleAligned(q, step);
    assert step > 0.0 ==> q as real * step <= x < q as real * step + step by {
      if step > 0.0 {
        FloorBounds(x, step);
      }
    }
    q as real * step
  }

  /** A whole multiple of a nonzero step is on the step grid. */
  lemma MultipleAligned(q: int, s: real)
    requires s != 0.0
    ensures Aligned(q as real * s, s)
  {
    ScaleDivide(q as real, s);
    assert (q as real * s) / s == q as real;
  }

  lemma ScaleDivide(a: real, s: real)
    requires s != 0.0
    ensures (a * s) / s == a
  {
  }

  lemma FloorBounds(x: real, s: real)
    requires s > 0.0
    ensures (x / s).Floor as real * s <= x < (x / s).Floor as real * s + s
  {
    var y := x / s;
    var q := y.Floor as real;
    assert q <= y < q + 1.0;
    assert y * s == x;
    ScaleMonotone(q, y, s);
    ScaleStrict(y, q + 1.0, s);
    assert x < (q + 1.0) * s;
    assert (q + 1.0) * s == q * s + s;
    assert x < q * s + s;
  }

  lemma ScaleStrict(a: real, b: real, s: real)
    requires s > 0.0 && a < b
    ensures a * s < b * s
  {
  }

  /**
   * The typed value after the step rule: floored to a multiple of `step` when `step` is
   * truthy (present and nonzero), the typed value itself otherwise.
   */
  function Truncated(x: real, step: Option<real>): (t: real)
    ensures step.Some? && step.value > 0.0 ==> Aligned(t, step.value) && t <= x < t + step.value
    ensures step.None? || step.value == 0.0 ==> t == x
  {
    if step.Some? && step.value != 0.0 then FloorToStep(x, step.value) else x
  }

  function Abs(x: real): real {
    if x < 0.0 then -x else x
  }

  /**
   * What the `NumberInput` setter delivers for the typed value `x`: the truncated value
   * clamped by `Math.max(min, Math.min(max, t))`.
   */
  function Normalise(x: real, min: real, max: real, step: Option<real>): (r: real)
    ensures min <= max ==> min <= r <= max
    ensures max < min ==> r == min
    ensures Truncated(x, step) < min ==> r == min
    ensures min <= Truncated(x, step) <= max ==> r == Truncated(x, step)
    ensures min <= max < Truncated(x, step) ==> r == max
  {
    var t := Truncated(x, step);
    var low := if max < t then max else t;
    if min < low then low else min
  }

  /** With ordered bounds, the delivered value is the point of [min, max] nearest the truncated value. */
  lemma NormaliseNearest(x: real, min: real, max: real, step: Option<real>, y: real)
    requires min <= y <= max
    ensures Abs(Normalise(x, min, max, step) - Truncated(x, step)) <= Abs(y - Truncated(x, step))
  {
  }

  /** A value already on the step grid and inside the bounds comes back unchanged. */
  lemma NormaliseFixesAligned(x: real, min: real, max: real, s: real)
    requires s > 0.0 && Aligned(x, s) && min <= x <= max
    ensures Normalise(x, min, max, Some(s)) == x
  {
    FloorOfAligned(x, s);
  }

  lemma FloorOfAligned(x: real, s: real)
    requires s > 0.0 && Aligned(x, s)
    ensures FloorToStep(x, s) == x
  {
    var q := (x / s).Floor;
    assert q as real == x / s;
    assert q as real * s == (x / s) * s == x;
  }

  /**
   * When the bounds lie on the step grid, every value the setter delivers is on the grid
   * and inside the bounds, so normalising it again changes nothing.
   */
  lemma NormaliseIdempotent(x: real, min: real, max: real, s: real)
    requires s > 0.0 && Aligned(min, s) && Aligned(max, s) && min <= max
    ensures Aligned(Normalise(x, min, max, Some(s)), s)
    ensures Normalise(Normalise(x, min, max, Some(s)), min, max, Some(s)) == Normalise(x, min, max, Some(s))
  {
    NormaliseFixesAligned(Normalise(x, min, max, Some(s)), min, max, s);
  }

  /** A larger typed value never yields a smaller delivered value. */
  lemma NormaliseMonotone(x: real, y: real, min: real, max: real, s: real)
    requires s > 0.0 && x <= y
    ensures Normalise(x, min, max, Some(s)) <= Normalise(y, min, max, Some(s))
  {
    FloorMonotone(x, y, s);
  }

  lemma FloorMonotone(x: real, y: real, s: real)
    requires s > 0.0 && x <= y
    ensures FloorToStep(x, s) <= FloorToStep(y, s)
  {
    var p, q := (x / s).Floor, (y / s).Floor;
    assert x / s <= y / s by {
      DivideMonotone(x, y, s);
    }
    assert p <= q;
    ScaleMonotone(p as real, q as real, s);
  }

  lemma DivideMonotone(x: real, y: real, s: real)
    requires s > 0.0 && x <= y
    ensures x / s <= y / s
  {
  }

  lemma ScaleMonotone(a: real, b: real, s: real)
    requires s > 0.0 && a <= b
    ensures a * s <= b * s
  {
  }

  // ---------------------------------------------------------------------------------
  // The palette and the editors each tile type shows
  // ---------------------------------------------------------------------------------

  /** The tile-type buttons offered, in the order they are shown. */
  function Palette(isEditor: bool): (r: seq<Tile>)
    ensures !isEditor ==> forall t :: t in r <==> TileCode(t) < 4
    ensures isEditor ==> forall t: Tile :: t in r
    ensures forall i, j :: 0 <= i < j < |r| ==> r[i] != r[j]
  {
    var r := [NONE, CONVEYOR, GRABBER, CONVERTER] + (if isEditor then [INPUT, OUTPUT, COMPLETE, WALL] else []);
    AllTilesListed();
    assert isEditor ==> r == [NONE, CONVEYOR, GRABBER, CONVERTER, INPUT, OUTPUT, COMPLETE, WALL];
    r
  }

  lemma AllTilesListed()
    ensures forall t: Tile :: t in [NONE, CONVEYOR, GRABBER, CONVERTER, INPUT, OUTPUT, COMPLETE, WALL]
  {
    var all := [NONE, CONVEYOR, GRABBER, CONVERTER, INPUT, OUTPUT, COMPLETE, WALL];
    forall t: Tile ensures t in all {
      match t
      case NONE => assert all[0] == t;
      case CONVEYOR => assert all[1] == t;
      case GRABBER => assert all[2] == t;
      case CONVERTER => assert all[3] == t;
      case INPUT => assert all[4] == t;
      case OUTPUT => assert all[5] == t;
      case COMPLETE => assert all[6] == t;
      case WALL => assert all[7] == t;
    }
  }

  /** One control of the panel below the palette, and the property it writes. */
  datatype Editor =
    | DirectionEditor
    | OperationEditor
    | NumberEditor(key: string, min: nat, max: nat, step: nat)
    | HasNumberEditor

  /** The property an editor writes through the field setter. */
  function EditedKey(e: Editor): string
  {
    match e
    case DirectionEditor => "direction"
    case OperationEditor => "operation"
    case NumberEditor(k, _, _, _) => k
    case HasNumberEditor => "has_num"
  }

  const NumberEditors: seq<Editor> := [NumberEditor("num", 0, 32767, 1), HasNumberEditor]

  /**
   * The controls shown for the selected tile type; NONE, WALL and COMPLETE show none.
   * No property is written by two controls of one panel.
   */
  function Panel(t: Tile): (editors: seq<Editor>)
    ensures |editors| == 0 <==> t == NONE || t == WALL || t == COMPLETE
    ensures forall i, j :: 0 <= i < j < |editors| ==> EditedKey(editors[i]) != EditedKey(editors[j])
  {
    match t
    case CONVEYOR => [DirectionEditor]
    case GRABBER => [DirectionEditor, NumberEditor("grabber_length", 2, 4, 1)]
    case INPUT => NumberEditors
    case OUTPUT => NumberEditors + [NumberEditor("score", 0, 255, 1), NumberEditor("required_score", 0, 255, 1)]
    case CONVERTER => [DirectionEditor, OperationEditor]
    case _ => []
  }

  /** The properties the panel of tile type `t` can write. */
  function PanelKeys(t: Tile): (keys: set<string>)
    ensures "type" !in keys && "editable" !in keys
    ensures "num" in keys <==> "has_num" in keys
    ensures "num" in keys <==> t == INPUT || t == OUTPUT
  {
    PanelWitnesses(t);
    set e | e in Panel(t) :: EditedKey(e)
  }

  /** Which tile types offer each of the other editable properties, and that there are no more. */
  lemma PanelKeysByTile(t: Tile)
    ensures "direction" in PanelKeys(t) <==> t == CONVEYOR || t == GRABBER || t == CONVERTER
    ensures "grabber_length" in PanelKeys(t) <==> t == GRABBER
    ensures "score" in PanelKeys(t) <==> t == OUTPUT
    ensures "required_score" in PanelKeys(t) <==> t == OUTPUT
    ensures "operation" in PanelKeys(t) <==> t == CONVERTER
    ensures PanelKeys(t) <= {"direction", "operation", "num", "has_num", "grabber_length", "score", "required_score"}
  {
    var p := Panel(t);
    PanelWitnesses(t);
    match t
    case CONVEYOR =>
      assert forall e :: e in p ==> e == DirectionEditor;
    case GRABBER =>
      assert forall e :: e in p ==> e == p[0] || e == p[1];
    case INPUT =>
      assert forall e :: e in p ==> e == p[0] || e == p[1];
    case OUTPUT =>
      assert forall e :: e in p ==> e == p[0] || e == p[1] || e == p[2] || e == p[3];
    case CONVERTER =>
      assert forall e :: e in p ==> e == p[0] || e == p[1];
    case _ =>
      assert p == [];
  }

  /** The controls whose presence the panel's keys rest on. */
  lemma PanelWitnesses(t: Tile)
    ensures t == INPUT || t == OUTPUT ==> NumberEditors[0] in Panel(t) && NumberEditors[1] in Panel(t)
    ensures t == CONVEYOR || t == GRABBER || t == CONVERTER ==> DirectionEditor in Panel(t)
    ensures t == GRABBER ==> Panel(t)[1] == NumberEditor("grabber_length", 2, 4, 1)
    ensures t == OUTPUT ==> Panel(t)[2] == NumberEditor("score", 0, 255, 1) && Panel(t)[3] == NumberEditor("required_score", 0, 255, 1)
    ensures t == CONVERTER ==> Panel(t)[1] == OperationEditor
  {
  }

  /** Every number control has whole bounds in order and a step of one. */
  lemma PanelBounds(t: Tile, e: Editor)
    requires e in Panel(t) && e.NumberEditor?
    ensures e.min <= e.max && e.step == 1
    ensures e.key == "num" ==> e.min == 0 && e.max == 32767
    ensures e.key == "grabber_length" ==> e.min == 2 && e.max == 4
    ensures e.key == "score" || e.key == "required_score" ==> e.min == 0 && e.max == 255
  {
  }

  /**
   * Typing `x` into a number control: normalise, then store the whole number through the
   * field setter. The stored value lies within the control's bounds.
   */
  function EditNumber(settings: TileSettings, e: Editor, x: real): (r: TileSettings)
    requires e.NumberEditor? && e.min <= e.max && e.step == 1
    ensures e.key in r && e.min <= r[e.key] <= e.max
    ensures r[e.key] as real == Normalise(x, e.min as real, e.max as real, Some(1.0))
    ensures forall k :: k != e.key ==> (k in r <==> k in settings) && (k in settings ==> r[k] == settings[k])
  {
    var v := Normalise(x, e.min as real, e.max as real, Some(1.0));
    NormaliseIdempotent(x, e.min as real, e.max as real, 1.0);
    assert v.Floor as real == v;
    PropSet(settings, e.key, v.Floor)
  }

  /** Ticking or clearing the "Has number?" box. */
  function EditHasNumber(settings: TileSettings, checked: bool): (r: TileSettings)
    ensures "has_num" in r
    ensures r["has_num"] == 1 <==> checked
    ensures r["has_num"] <= 1
    ensures forall k :: k != "has_num" ==> (k in r <==> k in settings) && (k in settings ==> r[k] == settings[k])
  {
    PropSet(settings, "has_num", if checked then 1 else 0)
  }

  // ---------------------------------------------------------------------------------
  // Changing the tile type
  // ---------------------------------------------------------------------------------

  /** The value stored for a boolean property. */
  function Flag(b: bool): nat
  {
    if b then 1 else 0
  }

  /**
   * Choosing tile type `t` in the palette: the type is replaced, `editable` is set for
   * NONE, CONVEYOR, GRABBER and CONVERTER, `has_num` for INPUT and OUTPUT, and every other
   * property is carried over.
   */
  function ChangeTileType(settings: TileSettings, t: Tile): (r: TileSettings)
    ensures "type" in r && "editable" in r && "has_num" in r
    ensures TileOfCode(r["type"]) == Some(t)
    ensures r["editable"] == 1 <==> t in Palette(false)
    ensures r["has_num"] == 1 <==> "num" in PanelKeys(t)
    ensures r["editable"] <= 1 && r["has_num"] <= 1
    ensures r.Keys == settings.Keys + {"type", "editable", "has_num"}
    ensures forall k :: k in settings && k !in {"type", "editable", "has_num"} ==> r[k] == settings[k]
  {
    settings["type" := TileCode(t)]
      ["editable" := Flag(t == CONVEYOR || t == NONE || t == GRABBER || t == CONVERTER)]
      ["has_num" := Flag(t == INPUT || t == OUTPUT)]
  }

  /** `type`, `editable` and `has_num` agree the way a tile-type change leaves them. */
  predicate Coherent(settings: TileSettings) {
    && "type" in settings && "editable" in settings && "has_num" in settings
    && TileOfCode(settings["type"]).Some?
    && var t := TileOfCode(settings["type"]).value;
    && (settings["editable"] == 1 <==> t in Palette(false))
    && (settings["has_num"] == 1 <==> "num" in PanelKeys(t))
  }

  /** A tile-type change always leaves the record coherent, whatever it held before. */
  lemma ChangeTileTypeCoherent(settings: TileSettings, t: Tile)
    ensures Coherent(ChangeTileType(settings, t))
  {
  }

  /** Choosing the same type twice is the same as choosing it once. */
  lemma ChangeTileTypeIdempotent(settings: TileSettings, t: Tile)
    ensures ChangeTileType(ChangeTileType(settings, t), t) == ChangeTileType(settings, t)
  {
  }

  /** The record the panel starts from. */
  const InitialSettings: TileSettings := map[
    "type" := TileCode(CONVERTER), "num" := 1, "has_num" := 0, "grabber_length" := 3,
    "score" := 0, "required_score" := 10, "direction" := DirectionCode(UP),
    "operation" := OperationCode(ADD), "editable" := 0]

  /**
   * The starting record is a CONVERTER marked not editable, which no tile-type change
   * produces: choosing CONVERTER in the palette marks it editable.
   */
  lemma InitialSettingsIncoherent()
    ensures !Coherent(InitialSettings)
    ensures ChangeTileType(InitialSettings, CONVERTER)["editable"] == 1
  {
    assert TileOfCode(InitialSettings["type"]) == Some(CONVERTER);
  }

  /**
   * No control of the panel writes `type` or `editable`, so their agreement survives any
   * edit; `has_num` is the one flag a panel edit can move away from the type.
   */
  lemma PanelEditKeepsEditable(settings: TileSettings, t: Tile, key: string, v: nat)
    requires Coherent(settings) && TileOfCode(settings["type"]) == Some(t)
    requires key in PanelKeys(t) && key != "has_num"
    ensures Coherent(PropSet(settings, key, v))
  {
  }

  /** Clearing the "Has number?" box of an INPUT tile breaks the agreement. */
  lemma HasNumberEditBreaksCoherence(settings: TileSettings)
    ensures !Coherent(EditHasNumber(ChangeTileType(settings, INPUT), false))
  {
    assert TileOfCode(EditHasNumber(ChangeTileType(settings, INPUT), false)["type"]) == Some(INPUT);
  }

  // ---------------------------------------------------------------------------------
  // Uploading a level
  // ---------------------------------------------------------------------------------

  /** A parsed JSON value. */
  datatype Json =
    | JNull
    | JBool(b: bool)
    | JNumber(n: real)
    | JString(s: string)
    | JArray(items: seq<Json>)
    | JObject(fields: map<string, Json>)

  /** Why an upload is refused: reading a property of `null` throws, the rest are the thrown strings. */
  datatype UploadError = NullValue | NoWidth | NoHeight | NoPixels

  /** `v.key` is a JSON number; only objects have properties that can be. */
  predicate NumberField(v: Json, key: string) {
    v.JObject? && key in v.fields && v.fields[key].JNumber?
  }

  /** `Array.isArray(v.key)`. */
  predicate ArrayField(v: Json, key: string) {
    v.JObject? && key in v.fields && v.fields[key].JArray?
  }

  /**
   * The checks on the parsed upload, in order: width a number, height a number, data an
   * array. The value that passes is handed on unchanged.
   */
  function CheckUpload(v: Json): (r: Result<Json, UploadError>)
    ensures r.Ok? <==> v.JObject? && NumberField(v, "width") && NumberField(v, "height") && ArrayField(v, "data")
    ensures r.Ok? ==> r.value == v
    ensures r == Err(NullValue) <==> v == JNull
    ensures r == Err(NoWidth) <==> v != JNull && !NumberField(v, "width")
    ensures r == Err(NoHeight) <==> NumberField(v, "width") && !NumberField(v, "height")
    ensures r == Err(NoPixels) <==> NumberField(v, "width") && NumberField(v, "height") && !ArrayField(v, "data")
  {
    if v.JNull? then Err(NullValue)
    else if !v.JObject? || "width" !in v.fields || !v.fields["width"].JNumber? then Err(NoWidth)
    else if "height" !in v.fields || !v.fields["height"].JNumber? then Err(NoHeight)
    else if "data" !in v.fields || !v.fields["data"].JArray? then Err(NoPixels)
    else Ok(v)
  }

  /**
   * The check looks at nothing but the three field kinds: a negative width, a fractional
   * height and a pixel array of the wrong length are all accepted.
   */
  lemma UploadAcceptsInconsistentLevel()
    ensures CheckUpload(JObject(map["width" := JNumber(-1.0), "height" := JNumber(0.5), "data" := JArray([JNull])])).Ok?
  {
  }
}
