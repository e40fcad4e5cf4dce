/** The game settings: the size of the field and the number of mines, the
    three preset difficulties, the difficulty name derived from the field's
    area, and settings equality and hashing. */
module GameSettings {
  import opened Wrappers

  /** The final fields of a Settings object: the size of the field and the
      number of mines. */
  datatype Dimensions = Dimensions(rowCount: int, columnCount: int, mineCount: int)
  {
    /** The level quotient: the number of cells of the field. */
    function LevelQuocient(): int {
      rowCount * columnCount
    }
  }

  const BEGINNER := Dimensions(9, 9, 10)
  const INTERMEDIATE := Dimensions(16, 16, 40)
  const EXPERT := Dimensions(16, 30, 99)

  /** The level name as the getter computes it: BEGINNER below 100 cells,
      INTERMEDIATE strictly between 100 and 400, EXPERT above 400, and no
      name at all at exactly 100 or 400 cells. */
  function LevelNameAsWritten(s: Dimensions): (r: Option<string>)
    ensures r == Some("BEGINNER") <==> s.LevelQuocient() < 100
    ensures r == Some("INTERMEDIATE") <==> 100 < s.LevelQuocient() < 400
    ensures r == Some("EXPERT") <==> s.LevelQuocient() > 400
    ensures r == None <==> s.LevelQuocient() == 100 || s.LevelQuocient() == 400
  {
    var q := s.LevelQuocient();
    if q < 100 then Some("BEGINNER")
    else if q > 100 && q < 400 then Some("INTERMEDIATE")
    else if q > 400 then Some("EXPERT")
    else None
  }

  /** A 10 x 10 field and a 20 x 20 field have no level name. */
  lemma LevelNameGaps()
    ensures LevelNameAsWritten(Dimensions(10, 10, 10)) == None
    ensures LevelNameAsWritten(Dimensions(20, 20, 50)) == None
  {
  }

  /** The level name with the two gaps closed: 100 cells is INTERMEDIATE,
      400 cells is EXPERT. */
  function LevelName(s: Dimensions): (r: string)
    ensures r in {"BEGINNER", "INTERMEDIATE", "EXPERT"}
    ensures LevelNameAsWritten(s).Some? ==> r == LevelNameAsWritten(s).value
    ensures s.LevelQuocient() == 100 ==> r == "INTERMEDIATE"
    ensures s.LevelQuocient() == 400 ==> r == "EXPERT"
  {
    var q := s.LevelQuocient();
    if q < 100 then "BEGINNER"
    else if q < 400 then "INTERMEDIATE"
    else "EXPERT"
  }

  /** A larger field is never given an easier level name. */
  lemma LevelNameMonotone(s: Dimensions, t: Dimensions)
    requires s.LevelQuocient() <= t.LevelQuocient()
    ensures LevelName(s) == "EXPERT" ==> LevelName(t) == "EXPERT"
    ensures LevelName(t) == "BEGINNER" ==> LevelName(s) == "BEGINNER"
  {
  }

  /** Each preset is classified under its own name, by either version. */
  lemma PresetLevelNames()
    ensures LevelNameAsWritten(BEGINNER) == Some("BEGINNER") && LevelName(BEGINNER) == "BEGINNER"
    ensures LevelNameAsWritten(INTERMEDIATE) == Some("INTERMEDIATE") && LevelName(INTERMEDIATE) == "INTERMEDIATE"
    ensures LevelNameAsWritten(EXPERT) == Some("EXPERT") && LevelName(EXPERT) == "EXPERT"
  {
    assert BEGINNER.LevelQuocient() == 81;
    assert INTERMEDIATE.LevelQuocient() == 256;
    assert EXPERT.LevelQuocient() == 480;
  }

  /** Settings are equal when columns, rows and mines all agree. */
  function Equals(s: Dimensions, t: Dimensions): (r: bool)
    ensures r <==> s == t
  {
    if s.columnCount != t.columnCount then false
    else if s.rowCount != t.rowCount then false
    else s.mineCount == t.mineCount
  }

  lemma EqualsIsEquivalence(s: Dimensions, t: Dimensions, u: Dimensions)
    ensures Equals(s, s)
    ensures Equals(s, t) ==> Equals(t, s)
    ensures Equals(s, t) && Equals(t, u) ==> Equals(s, u)
  {
  }

  /** The hash code: rows * columns * mines. */
  function HashCode(s: Dimensions): int {
    s.rowCount * s.columnCount * s.mineCount
  }

  /** Equal settings hash alike. */
  lemma EqualsHashCode(s: Dimensions, t: Dimensions)
    requires Equals(s, t)
    ensures HashCode(s) == HashCode(t)
  {
  }

  /** The presets are three different settings. */
  lemma PresetsDiffer()
    ensures !Equals(BEGINNER, INTERMEDIATE) && !Equals(INTERMEDIATE, EXPERT) && !Equals(BEGINNER, EXPERT)
    ensures HashCode(BEGINNER) == 810 && HashCode(INTERMEDIATE) == 10240 && HashCode(EXPERT) == 47520
  {
  }

  /** A Settings object: its final fields, and the level name that
      getLevelName stores each time it finds one. */
  class Settings {
    const rowCount: int
    const columnCount: int
    const mineCount: int
    const levelQuocient: int
    var levelName: Option<string>

    constructor (rowCount: int, columnCount: int, mineCount: int)
      ensures Dims() == Dimensions(rowCount, columnCount, mineCount)
      ensures levelQuocient == Dims().LevelQuocient()
      ensures levelName == None
    {
      this.rowCount := rowCount;
      this.columnCount := columnCount;
      this.mineCount := mineCount;
      this.levelQuocient := rowCount * columnCount;
      levelName := None;
    }

    function Dims(): Dimensions {
      Dimensions(rowCount, columnCount, mineCount)
    }

    /** The level name, or None (Java's null) at exactly 100 or 400 cells;
        a name found is also stored in levelName, None leaves it as it was. */
    method GetLevelName() returns (r: Option<string>)
      requires levelQuocient == Dims().LevelQuocient()
      modifies this
      ensures r == LevelNameAsWritten(Dims())
      ensures levelName == if r.Some? then r else old(levelName)
    {
      if levelQuocient < 100 {
        levelName := Some("BEGINNER");
        return levelName;
      }
      if levelQuocient > 100 && levelQuocient < 400 {
        levelName := Some("INTERMEDIATE");
        return levelName;
      }
      if levelQuocient > 400 {
        levelName := Some("EXPERT");
        return levelName;
      }
      return None;
    }
  }
}
