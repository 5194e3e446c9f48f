/** The growth constants of constants.py (lines 14-25). */
module Constants {

  /** Length and angle of the first branch of a new tree. */
  const StartBranchLen: int := 30
  const StartBranchAngle: int := 90

  /** Bounds of the length draw for a new branch, and the floor of its length. */
  const MinLength: int := 12
  const MaxLength: int := 40

  /** Angle ranges of new left and right branches; together they bound the bend domain. */
  const MinAngleLeft: int := 100
  const MaxAngleLeft: int := 145
  const MinAngleRight: int := 35
  const MaxAngleRight: int := 80

  /** Age and length changes applied by bending and by thickening in place. */
  const BendAgeChange: int := -3
  const GrowAgeChange: int := 12
  const GrowLengthChange: int := 2

  function Max(a: int, b: int): int { if a < b then b else a }

  function Min(a: int, b: int): int { if a < b then a else b }
}
