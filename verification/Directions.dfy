/** The two directions of a descriptor, as the poll back-ends and the buffered services tell them apart. */
module Directions {
  datatype Direction = Input | Output

  function Other(d: Direction): Direction {
    if d == Input then Output else Input
  }
}
