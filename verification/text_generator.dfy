/**
 The text generator node: its three inputs and their defaults, its
 evaluation (snapshot the inputs into a generate job, push the job when
 there is text) and its CPU frame synthesis (align, rasterise, transplant).
 */
module TextGenerator {
  import opened Variants
  import opened Jobs
  import opened Tables
  import opened Alignment
  import opened Raster
  import opened Transplant

  /** A parameter slot: identifier, data type and default value. */
  datatype NodeInput = NodeInput(id: InputId, kind: ParamType, default: Variant)

  const TextInputId: InputId := "text_in"
  const ColorInputId: InputId := "color_in"
  const ValignInputId: InputId := "valign_in"

  /** The default markup, with the untranslated sample text. */
  const DefaultText: string := "<html><div style='font-size:144pt; text-align: center;'>Sample Text</div></html>"

  const White: Color := Color(1.0, 1.0, 1.0, 1.0)

  /** The inputs in the order the constructor adds them. */
  const Inputs: seq<NodeInput> := [
    NodeInput(TextInputId, ParamText, Text(DefaultText)),
    NodeInput(ColorInputId, ParamColor, ColorValue(White)),
    NodeInput(ValignInputId, ParamCombo, Int(AlignCenter))
  ]

  /** A text generator, known by its handle in the node arena. */
  datatype Node = Node(self: NodeRef)

  /** A node's input identifiers are unique. */
  predicate DistinctIds(inputs: seq<NodeInput>) {
    forall i, j :: 0 <= i < j < |inputs| ==> inputs[i].id != inputs[j].id
  }

  /**
   The database of one pass for a node with the given inputs. `upstream`
   holds the value each connected input receives from the node it is
   connected to; an input missing from it is unconnected and resolves to
   its own default value.
   */
  function ResolveInputs(inputs: seq<NodeInput>, upstream: map<InputId, Variant>): (db: Database)
    requires DistinctIds(inputs)
    ensures db.Keys == Ids(inputs)
    // a connected input takes its upstream value, an unconnected one its default
    ensures forall k :: 0 <= k < |inputs| ==>
      db[inputs[k].id] == if inputs[k].id in upstream then upstream[inputs[k].id] else inputs[k].default
  {
    if |inputs| == 0 then map[]
    else
      var last := inputs[|inputs| - 1];
      var prefix := inputs[..|inputs| - 1];
      assert forall k :: 0 <= k < |prefix| ==> prefix[k] == inputs[k] && prefix[k].id != last.id;
      var db := ResolveInputs(prefix, upstream);
      db[last.id := if last.id in upstream then upstream[last.id] else last.default]
  }

  /** The identifiers of the inputs. */
  function Ids(inputs: seq<NodeInput>): (ids: set<InputId>)
    ensures forall k :: 0 <= k < |inputs| ==> inputs[k].id in ids
    ensures forall id :: id in ids ==> exists k :: 0 <= k < |inputs| && inputs[k].id == id
  {
    if |inputs| == 0 then {} else Ids(inputs[..|inputs| - 1]) + {inputs[|inputs| - 1].id}
  }

  /**
   The constructor's inputs have distinct identifiers, and its defaults are
   non-empty markup, white and centred alignment.
   */
  lemma DefaultInputs()
    ensures DistinctIds(Inputs)
    ensures ToText(Inputs[0].default) != ""
    ensures ToColor(Inputs[1].default) == White
    ensures ToInt(Inputs[2].default) == AlignCenter
  {
    assert TextInputId[0] != ColorInputId[0];
    assert TextInputId[0] != ValignInputId[0];
    assert ColorInputId[0] != ValignInputId[0];
  }

  /** The job a pass builds: the three inputs' values copied out of the database, alpha channel required. */
  function Snapshot(db: Database): (job: GenerateJob)
    ensures job.values.Keys == {TextInputId, ColorInputId, ValignInputId}
    ensures forall id :: id in job.values ==> job.values[id] == Resolve(db, id)
    ensures job.alphaRequired
  {
    var job := InsertValue(EmptyJob, TextInputId, db);
    var job := InsertValue(job, ColorInputId, db);
    var job := InsertValue(job, ValignInputId, db);
    SetAlphaChannelRequired(job, true)
  }

  /**
   Evaluation. `merged` is the upstream value table the database merges;
   the result is that table, with a generate job produced by this node on
   top exactly when the text input converts to non-empty text.
   */
  function Value(node: Node, db: Database, merged: Table): (table: Table)
    ensures Extends(table, merged)
    ensures |table| <= |merged| + 1
    ensures |table| == |merged| + 1 <==> ToText(Resolve(db, TextInputId)) != ""
    ensures |table| == |merged| + 1 ==>
      table[|merged|] == Entry(ParamGenerateJob, Job(Snapshot(db)), node.self)
  {
    var job := Snapshot(db);
    if ToText(GetValue(job, TextInputId)) != "" then Push(merged, ParamGenerateJob, Job(job), node.self) else merged
  }

  /** Reading any of the node's inputs from the job gives the value the database resolved. */
  lemma SnapshotGetValue(db: Database, k: int)
    requires 0 <= k < |Inputs|
    ensures GetValue(Snapshot(db), Inputs[k].id) == Resolve(db, Inputs[k].id)
  {
  }

  /** Evaluation reads nothing but the node's own three inputs. */
  lemma ValueReadsOnlyOwnInputs(node: Node, db1: Database, db2: Database, merged: Table)
    requires forall k :: 0 <= k < |Inputs| ==> Resolve(db1, Inputs[k].id) == Resolve(db2, Inputs[k].id)
    ensures Value(node, db1, merged) == Value(node, db2, merged)
  {
    assert Inputs[0].id == TextInputId && Inputs[1].id == ColorInputId && Inputs[2].id == ValignInputId;
    assert Snapshot(db1).values == Snapshot(db2).values;
  }

  /** A node with no input connected pushes a job asking for the default markup, centred, in white. */
  lemma DefaultNodePushesJob(node: Node, merged: Table)
    ensures DistinctIds(Inputs)
    ensures var table := Value(node, ResolveInputs(Inputs, map[]), merged);
      && |table| == |merged| + 1
      && table[|merged|].value.Job?
      && ToInt(GetValue(table[|merged|].value.job, ValignInputId)) == AlignCenter
      && ToColor(GetValue(table[|merged|].value.job, ColorInputId)) == White
      && ToText(GetValue(table[|merged|].value.job, TextInputId)) == DefaultText
  {
    DefaultInputs();
  }

  /** The render parameters of the frame: full-resolution size and resolution divider. */
  datatype VideoParams = VideoParams(width: int, height: int, divider: int)

  /** A float RGBA frame buffer of `width` by `height` pixels, stored row by row. */
  datatype Frame = Frame(params: VideoParams, width: nat, height: nat, pixels: seq<seq<Color>>)

  /** The vertical translation applied before drawing the job's text. */
  function TextOffset(job: GenerateJob, frameHeight: int, docHeight: int): (offset: int)
    // an unset or colour alignment reads as code 0, Top
    ensures GetValue(job, ValignInputId).Empty? || GetValue(job, ValignInputId).ColorValue? ==> offset == 0
    // a code the enumeration does not name is drawn as Bottom
    ensures var code := ToInt(GetValue(job, ValignInputId));
      code != AlignTop && code != AlignCenter ==> offset + docHeight == frameHeight
  {
    VerticalOffset(ToInt(GetValue(job, ValignInputId)), frameHeight, docHeight)
  }

  /**
   CPU synthesis of a job into `frame`. Layout and rasterisation are not
   modelled: `docHeight` is the laid-out document's height and
   `drawContents` gives the strokes the rasteriser leaves on the zero-filled
   greyscale image once the painter is translated down by a given offset.
   */
  method GenerateFrame(frame: Frame, job: GenerateJob, docHeight: int, drawContents: int -> seq<Stroke>)
      returns (out: Frame)
    requires Shaped(frame.pixels, frame.width, frame.height)
    ensures out.params == frame.params && out.width == frame.width && out.height == frame.height
    ensures Shaped(out.pixels, out.width, out.height)
    ensures forall x, y :: 0 <= x < frame.width && 0 <= y < frame.height ==>
      out.pixels[y][x] == Premultiply(ToColor(GetValue(job, ColorInputId)),
        LastCoverage(drawContents(TextOffset(job, frame.params.height, docHeight)), x, y, 0))
  {
    var img := ZeroMask(frame.width, frame.height);
    var offset := VerticalOffset(ToInt(GetValue(job, ValignInputId)), frame.params.height, docHeight);
    var strokes := drawContents(offset);
    var painted := Paint(img, strokes);
    var rgb := ToColor(GetValue(job, ColorInputId));
    var pixels, writes := TransplantAlpha(frame.pixels, painted, rgb);
    assert forall x, y :: InImage(img, x, y) ==>
      painted.bits[Index(painted, x, y)] == LastCoverage(strokes, x, y, 0);
    out := frame.(pixels := pixels);
  }

  /** A pixel the rasteriser never reaches comes out fully transparent, whatever the colour. */
  lemma UntouchedPixelTransparent(strokes: seq<Stroke>, rgb: Color, x: int, y: int)
    requires forall k :: 0 <= k < |strokes| ==> !(strokes[k].x == x && strokes[k].y == y)
    ensures Premultiply(rgb, LastCoverage(strokes, x, y, 0)) == TransparentBlack
  {
    UntouchedCoverageIsBackground(strokes, x, y, 0);
  }
}
