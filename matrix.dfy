/**
 * The conversion of a 4x4 affine transform held in a 2-D numeric array into
 * the rendering library's 4x4 matrix (`numpy_to_vtkMatrix4x4` in
 * invesalius/data/vtk_utils.py). The library matrix is stood in for by a
 * fresh 4x4 array.
 */
module AffineMatrix {

  /** A freshly constructed library matrix holds the identity. */
  function IdentityCell(row: nat, col: nat): real
  {
    if row == col then 1.0 else 0.0
  }

  /** Copy every cell of a 4x4 array, row by row, into a new matrix. */
  method ToMatrix4x4(affine: array2<real>) returns (m: array2<real>)
    requires affine.Length0 == 4 && affine.Length1 == 4
    ensures fresh(m)
    ensures m.Length0 == 4 && m.Length1 == 4
    ensures forall row, col :: 0 <= row < 4 && 0 <= col < 4 ==> m[row, col] == affine[row, col]
  {
    m := new real[4, 4]((row: nat, col: nat) => IdentityCell(row, col));
    for row := 0 to 4
      invariant forall i, j :: 0 <= i < row && 0 <= j < 4 ==> m[i, j] == affine[i, j]
    {
      for col := 0 to 4
        invariant forall i, j :: 0 <= i < row && 0 <= j < 4 ==> m[i, j] == affine[i, j]
        invariant forall j :: 0 <= j < col ==> m[row, j] == affine[row, j]
      {
        m[row, col] := affine[row, col];
      }
    }
  }
}
