/** Small value types shared by the editor modules. */
module Basics {

  /** A glm::vec3. The editor only stores and forwards these, so no arithmetic is modelled. */
  datatype Vec3 = Vec3(x: real, y: real, z: real)

  datatype Option<T> = None | Some(value: T)

  /** The largest value of a C++ uint32_t; `(uint32_t)-1` in the source. */
  const Uint32Max: nat := 0xFFFF_FFFF

  /** C++ unsigned 32-bit subtraction: wraps below zero. */
  function Uint32Sub(a: nat, b: nat): (r: nat)
    requires a <= Uint32Max && b <= Uint32Max
    ensures r <= Uint32Max
    ensures a >= b ==> r == a - b
    ensures a < b ==> r == a - b + Uint32Max + 1
  {
    (a - b) % (Uint32Max + 1)
  }

  /** vector::erase at index i: the elements before i stay, the later ones move down by one. */
  function RemoveAt<T>(s: seq<T>, i: nat): (r: seq<T>)
    requires i < |s|
    ensures |r| == |s| - 1
    ensures forall j :: 0 <= j < i ==> r[j] == s[j]
    ensures forall j :: i <= j < |r| ==> r[j] == s[j + 1]
  {
    s[..i] + s[i + 1..]
  }
}
