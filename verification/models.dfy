/** The score value types. Both are frozen dataclasses in the source: datatype
    values in Dafny are immutable and compare field by field, which is exactly
    what `@dataclass(frozen=True)` provides. */
module Models {

  /** One side of a match at one polling instant. */
  datatype Team = Team(name: string, points: int)

  /** A complete snapshot of a match: always both sides, never a partial one. */
  datatype MatchScore = MatchScore(homeTeam: Team, awayTeam: Team)
}
