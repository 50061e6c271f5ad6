/**
 * The one piece of the C library the fault handler decides on: `strcmp`
 * from <string.h>, on strings that hold no NUL character (a Dafny string
 * here is the C string up to, and without, its terminating NUL).
 */
module CStrings {

  /** `strcmp(a, b)`, up to its sign: it compares character codes left to
      right, and a string that ends first compares below the other. It is
      zero exactly when the two strings are equal. */
  function Strcmp(a: string, b: string): (r: int)
    ensures -1 <= r <= 1
    ensures r == 0 <==> a == b
  {
    if |a| == 0 && |b| == 0 then 0
    else if |a| == 0 then -1
    else if |b| == 0 then 1
    else if a[0] < b[0] then -1
    else if a[0] > b[0] then 1
    else
      assert a == [a[0]] + a[1..] && b == [b[0]] + b[1..];
      Strcmp(a[1..], b[1..])
  }
}
