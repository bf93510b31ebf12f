/**
  The flat view of a stack of layers of the union filesystem (cowfs.c): a path
  belongs to the highest layer in which it exists. Looking a path up layer by
  layer is shown to find what the view holds, and a change of the top layer to
  show up in the view at the same paths.
 */
module CowView {
  import opened CowLayer

  /** The one file map the stack stands for: higher layers override lower ones. */
  function Merged(layers: seq<Layer>): Layer {
    if layers == [] then map[] else Merged(layers[1..]) + layers[0]
  }

  /** The index of the highest layer with the path, that of the last layer if there is none. */
  function GetRd(layers: seq<Layer>, path: Path): (i: nat)
    requires layers != []
    ensures i < |layers|
  {
    if path in layers[0] || |layers| == 1 then 0 else 1 + GetRd(layers[1..], path)
  }

  /** Looking a path up layer by layer finds exactly what the flat view holds. */
  lemma {:induction false} LookupIsMerged(layers: seq<Layer>, path: Path)
    requires layers != []
    ensures var rd := layers[GetRd(layers, path)];
      && (path in rd <==> path in Merged(layers))
      && (path in rd ==> rd[path] == Merged(layers)[path])
    ensures forall i :: 0 <= i < GetRd(layers, path) ==> path !in layers[i]
    ensures path in Merged(layers) <==> exists i :: 0 <= i < |layers| && path in layers[i]
  {
    if path !in layers[0] && |layers| > 1 {
      LookupIsMerged(layers[1..], path);
      assert forall i :: 0 < i < |layers| ==> layers[i] == layers[1..][i - 1];
    }
  }

  lemma {:induction false} NotFoundIsLast(layers: seq<Layer>, path: Path)
    requires layers != [] && forall i :: 0 <= i < |layers| ==> path !in layers[i]
    ensures GetRd(layers, path) == |layers| - 1
  {
    if |layers| > 1 {
      NotFoundIsLast(layers[1..], path);
    }
  }

  /** The layers named by a stack of directory names. */
  function Layers(disk: map<string, Layer>, stack: seq<string>): (layers: seq<Layer>)
    requires forall n :: n in stack ==> n in disk
    ensures |layers| == |stack|
    ensures forall i :: 0 <= i < |layers| ==> layers[i] == disk[stack[i]]
  {
    seq(|stack|, i requires 0 <= i < |stack| => disk[stack[i]])
  }

  /** Changing the top layer shows up in the view at a path exactly as it does in the top layer. */
  lemma TopChangeInView(disk: map<string, Layer>, stack: seq<string>, top': Layer, q: Path)
    requires stack != [] && forall n :: n in stack ==> n in disk
    requires q in disk[stack[0]] ==> q in top'
    ensures var before, after := Merged(Layers(disk, stack)), Merged(Layers(disk[stack[0] := top'], stack));
      && (q in top' ==> q in after && after[q] == top'[q])
      && (q !in top' ==> (q in after <==> q in before) && (q in after ==> after[q] == before[q]))
      && (q in disk[stack[0]] ==> q in before && before[q] == disk[stack[0]][q])
  {
    var disk' := disk[stack[0] := top'];
    var layers, layers' := Layers(disk, stack), Layers(disk', stack);
    LookupIsMerged(layers, q);
    LookupIsMerged(layers', q);
    if q !in top' {
      assert forall i :: 0 <= i < |stack| ==> (q in layers[i] <==> q in layers'[i]);
      SameLookup(layers, layers', q);
    }
  }

  lemma {:induction false} SameLookup(a: seq<Layer>, b: seq<Layer>, q: Path)
    requires |a| == |b| && a != []
    requires forall i :: 0 <= i < |a| ==> (q in a[i] <==> q in b[i]) && (q in a[i] ==> a[i][q] == b[i][q])
    ensures GetRd(a, q) == GetRd(b, q)
  {
    if q !in a[0] && |a| > 1 {
      SameLookup(a[1..], b[1..], q);
    }
  }
}
