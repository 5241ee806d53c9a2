/**
 Trajectory reshaping before animation: `_reshape_for_animation` of
 netomaton/utils.py. A trajectory is the list of activity vectors, one per
 timestep.
 */
module Animation {
  import opened Wrappers

  type Vector = seq<real>

  type Frame = seq<Vector>

  /** The exceptions `_reshape_for_animation` raises. */
  datatype ReshapeError =
    | NoFirstVector   // `activities[0]` of an empty trajectory: IndexError
    | WidthMismatch   // the assertion `shape[0] == len(activities[0])` fails
    | SizeMismatch    // numpy cannot reshape the trajectory to (T, rows, cols)
    | ShapeLength     // `shape` has neither 1 nor 2 entries

  function Zeros(w: nat): Vector
  {
    seq(w, _ => 0.0)
  }

  /**
   Frame `i` of the 1-D animation of `acts`: as many rows as there are
   timesteps, the first `i + 1` being the trajectory so far and the rest zero
   vectors as wide as the first activity vector.
   */
  predicate GrowingFrame(acts: seq<Vector>, i: nat, f: Frame)
  {
    && 0 < |acts|
    && |f| == |acts|
    && i < |f|
    && f[..i + 1] == acts[..i + 1]
    && forall j :: i < j < |f| ==> f[j] == Zeros(|acts[0]|)
  }

  /** The rows of a frame laid end to end. */
  function Flatten(f: Frame): Vector
  {
    if f == [] then [] else f[0] + Flatten(f[1..])
  }

  /** One activity vector cut into `rows` consecutive rows of `cols` values. */
  function Chunk(v: Vector, rows: nat, cols: nat): (f: Frame)
    requires |v| == rows * cols
    ensures |f| == rows
    ensures forall i :: 0 <= i < rows ==> |f[i]| == cols
    ensures Flatten(f) == v
  {
    if rows == 0 then []
    else
      assert |v[cols..]| == (rows - 1) * cols;
      [v[..cols]] + Chunk(v[cols..], rows - 1, cols)
  }

  /**
   `np.reshape(activities, (len(activities), rows, cols))`: it succeeds when
   every vector holds exactly rows * cols values, and then each frame is its
   vector read row by row.
   */
  function Reshape2D(acts: seq<Vector>, rows: int, cols: int): (r: Result<seq<Frame>, ReshapeError>)
    ensures r.Ok? <==> rows >= 0 && cols >= 0 && forall t :: 0 <= t < |acts| ==> |acts[t]| == rows * cols
    ensures r.Err? ==> r.error == SizeMismatch
    ensures r.Ok? ==> |r.value| == |acts|
    ensures r.Ok? ==> forall t :: 0 <= t < |acts| ==>
                        |r.value[t]| == rows && Flatten(r.value[t]) == acts[t]
                        && forall i :: 0 <= i < rows ==> |r.value[t][i]| == cols
  {
    if rows >= 0 && cols >= 0 && forall t :: 0 <= t < |acts| ==> |acts[t]| == rows * cols then
      Ok(seq(|acts|, t requires 0 <= t < |acts| => Chunk(acts[t], rows, cols)))
    else
      Err(SizeMismatch)
  }

  /**
   `_reshape_for_animation`. With a one-entry shape, frame i shows the first
   i + 1 activity vectors padded with zero vectors, so the last frame is the
   whole trajectory; with a two-entry shape each vector becomes a 2-D frame.
   */
  method ReshapeForAnimation(acts: seq<Vector>, shape: seq<int>) returns (r: Result<seq<Frame>, ReshapeError>)
    ensures |shape| == 1 && |acts| == 0 ==> r == Err(NoFirstVector)
    ensures |shape| == 1 && |acts| > 0 && shape[0] != |acts[0]| ==> r == Err(WidthMismatch)
    ensures |shape| == 1 && |acts| > 0 && shape[0] == |acts[0]| ==>
              && r.Ok?
              && |r.value| == |acts|
              && (forall i :: 0 <= i < |acts| ==> GrowingFrame(acts, i, r.value[i]))
              && r.value[|acts| - 1] == acts
    ensures |shape| == 2 ==> r == Reshape2D(acts, shape[0], shape[1])
    ensures |shape| != 1 && |shape| != 2 ==> r == Err(ShapeLength)
  {
    if |shape| == 1 {
      if |acts| == 0 {
        return Err(NoFirstVector);
      }
      if shape[0] != |acts[0]| {
        return Err(WidthMismatch);
      }
      var width := |acts[0]|;
      var frames: seq<Frame> := [];
      var i := 0;
      while i < |acts|
        invariant 0 <= i <= |acts|
        invariant |frames| == i
        invariant forall k :: 0 <= k < i ==> GrowingFrame(acts, k, frames[k])
      {
        var frame := acts[..i + 1];
        while |frame| < |acts|
          invariant i + 1 <= |frame| <= |acts|
          invariant frame[..i + 1] == acts[..i + 1]
          invariant forall j :: i < j < |frame| ==> frame[j] == Zeros(width)
          decreases |acts| - |frame|
        {
          frame := frame + [Zeros(width)];
        }
        frames := frames + [frame];
        i := i + 1;
      }
      assert frames[|acts| - 1][..|acts|] == acts[..|acts|];
      return Ok(frames);
    } else if |shape| == 2 {
      return Reshape2D(acts, shape[0], shape[1]);
    } else {
      return Err(ShapeLength);
    }
  }
}
