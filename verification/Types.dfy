/** Entries of the shared consensus log and the state materialized from them. */
module Types {

  datatype Option<+T> = None | Some(value: T)

  datatype Result<+T, +E> = Ok(value: T) | Err(error: E)

  datatype ClaimId = ClaimId(text: string)

  type Author = string

  datatype ClaimKind = Item | Proposal | Fact | Conditional | Value | Reference

  datatype RelationKind = Attacks | Supports

  datatype Position = Block | Object | StandAside | Abstain | Consent | Support | Champion {
    predicate IsNegative() {
      Block? || Object?
    }
  }

  datatype Outcome = Accepted | Rejected | Tabled | Withdrawn

  datatype Entry =
    | Claim(claimId: ClaimId, author: Author, body: string, kind: ClaimKind, parent: Option<ClaimId>)
    | Relation(source: ClaimId, target: ClaimId, relation: RelationKind, author: Author)
    | Stance(target: ClaimId, author: Author, position: Position)
    | Resolve(claimId: ClaimId, author: Author, outcome: Outcome)
    | Comment(about: Option<ClaimId>, author: Author, body: string)

  datatype Resolution = Resolution(outcome: Outcome, author: Author)

  datatype ClaimState = ClaimState(
    id: ClaimId,
    author: Author,
    body: string,
    kind: ClaimKind,
    parent: Option<ClaimId>,
    resolution: Option<Resolution>)

  datatype RelationState = RelationState(source: ClaimId, target: ClaimId, kind: RelationKind, author: Author)

  datatype StanceState = StanceState(target: ClaimId, author: Author, position: Position)

  datatype MaterializedState = MaterializedState(
    claims: map<ClaimId, ClaimState>,
    relations: seq<RelationState>,
    stances: map<(ClaimId, Author), StanceState>)
}
