/** UnityEngine.Random as nondeterministic choice: every property is proved for every draw. */
module Random {

  /** Integer `Random.Range(min, max)`: a value in [min, max), or `min` when the range is empty. */
  method Range(min: int, max: int) returns (r: int)
    requires min <= max
    ensures min < max ==> min <= r < max
    ensures min == max ==> r == min
  {
    if min == max {
      r := min;
    } else {
      r :| min <= r < max;
    }
  }
}
