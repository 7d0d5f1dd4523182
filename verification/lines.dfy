/**
 * The one-way side of a `Line` body (src/lib/model/body.ts, `Line.side`):
 * `_oneway` is 0 for a line solid from both sides, 1 for one solid from
 * below (horizontal) or from the right (vertical), 2 for the other way.
 */
module Lines {

  datatype Line = Line(isHorizontal: bool, oneway: int)

  /** The side names a line accepts, by orientation. */
  function Accepted(isHorizontal: bool): (names: set<string>)
    ensures "all" in names && |names| == 3
  {
    if isHorizontal then {"all", "down", "up"} else {"all", "right", "left"}
  }

  /** The `side` getter. Any code other than 0 and 1 reads as the second direction. */
  function Side(l: Line): (s: string)
    ensures s in Accepted(l.isHorizontal)
    ensures s == "all" <==> l.oneway == 0
    ensures l.isHorizontal ==> (s == "down" <==> l.oneway == 1)
    ensures !l.isHorizontal ==> (s == "right" <==> l.oneway == 1)
  {
    if l.oneway == 0 then "all"
    else if l.isHorizontal then (if l.oneway == 1 then "down" else "up")
    else (if l.oneway == 1 then "right" else "left")
  }

  /** The `side` setter: an accepted name sets the code, any other string is ignored. */
  function SetSide(l: Line, val: string): (r: Line)
    ensures r.isHorizontal == l.isHorizontal
    ensures val !in Accepted(l.isHorizontal) ==> r == l
    ensures val in Accepted(l.isHorizontal) ==> 0 <= r.oneway <= 2
    ensures Side(r) == val <==> val in Accepted(l.isHorizontal)
  {
    if l.isHorizontal then
      if val == "all" then l.(oneway := 0)
      else if val == "down" then l.(oneway := 1)
      else if val == "up" then l.(oneway := 2)
      else l
    else
      if val == "all" then l.(oneway := 0)
      else if val == "right" then l.(oneway := 1)
      else if val == "left" then l.(oneway := 2)
      else l
  }

  /** Setting the side a line reports changes nothing when its code is one of 0, 1, 2. */
  lemma SideThenSet(l: Line)
    requires 0 <= l.oneway <= 2
    ensures SetSide(l, Side(l)) == l
  {
  }

  /** The second set wins: setting twice is setting the last accepted name. */
  lemma SetSideTwice(l: Line, a: string, b: string)
    requires b in Accepted(l.isHorizontal)
    ensures SetSide(SetSide(l, a), b) == SetSide(l, b)
  {
  }
}
