/** Products keep the order of their factors. */
module Products {
  lemma MulMono(a: int, b: int, c: int)
    requires a <= b && 0 <= c
    ensures a * c <= b * c
  {}

  lemma MulMonoRight(a: int, b: int, c: int)
    requires b <= c && 0 <= a
    ensures a * b <= a * c
  {}
}
