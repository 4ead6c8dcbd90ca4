/**
  The update rule the program applies: a cell takes the first nonzero
  neighbour in the order left, right, up, down, and keeps its own value when
  all four are zero.
 */
module SpreadRule {
  import opened Neighbourhood

  /** The scan over the neighbours from position `k` on. */
  function FirstNonzeroFrom(n: Quad, k: nat, value: nat): (r: nat)
    requires k <= 4
    ensures (forall j :: k <= j < 4 ==> n[j] == 0) ==> r == value
    ensures (exists j :: k <= j < 4 && n[j] != 0) ==>
              exists j :: k <= j < 4 && n[j] != 0 && r == n[j] && forall i :: k <= i < j ==> n[i] == 0
    decreases 4 - k
  {
    if k == 4 then value
    else if n[k] != 0 then n[k]
    else FirstNonzeroFrom(n, k + 1, value)
  }

  /** The rule: the first nonzero neighbour, otherwise the cell's own value. */
  function SpreadAction(value: nat, n: Quad): (r: nat)
    ensures (forall j :: 0 <= j < 4 ==> n[j] == 0) ==> r == value
    ensures (exists j :: 0 <= j < 4 && n[j] != 0) ==>
              exists j :: 0 <= j < 4 && n[j] != 0 && r == n[j] && forall i :: 0 <= i < j ==> n[i] == 0
    ensures r == 0 <==> value == 0 && forall j :: 0 <= j < 4 ==> n[j] == 0
  {
    FirstNonzeroFrom(n, 0, value)
  }
}
