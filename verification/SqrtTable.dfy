/**
The seed table of libbf.c: for the top 8 bits of a 16-bit number, a square root
that is exact or one too small.
*/
module SqrtTable {

  /** s may start the square root of every 16-bit number whose high byte is t. */
  ghost predicate Seeds(t: nat, s: nat) {
    128 <= s <= 255 && s * s <= 256 * t && 256 * t + 255 < (s + 2) * (s + 2)
  }

  function Row0(i: nat): (s: nat)
    requires i < 16
    ensures Seeds(i + 64, s)
  {
    [128, 128, 129, 130, 131, 132, 133, 134, 135, 136, 137, 138, 139, 140, 141, 142][i]
  }

  function Row1(i: nat): (s: nat)
    requires i < 16
    ensures Seeds(i + 80, s)
  {
    [143, 144, 144, 145, 146, 147, 148, 149, 150, 150, 151, 152, 153, 154, 155, 155][i]
  }

  function Row2(i: nat): (s: nat)
    requires i < 16
    ensures Seeds(i + 96, s)
  {
    [156, 157, 158, 159, 160, 160, 161, 162, 163, 163, 164, 165, 166, 167, 167, 168][i]
  }

  function Row3(i: nat): (s: nat)
    requires i < 16
    ensures Seeds(i + 112, s)
  {
    [169, 170, 170, 171, 172, 173, 173, 174, 175, 176, 176, 177, 178, 178, 179, 180][i]
  }

  function Row4(i: nat): (s: nat)
    requires i < 16
    ensures Seeds(i + 128, s)
  {
    [181, 181, 182, 183, 183, 184, 185, 185, 186, 187, 187, 188, 189, 189, 190, 191][i]
  }

  function Row5(i: nat): (s: nat)
    requires i < 16
    ensures Seeds(i + 144, s)
  {
    [192, 192, 193, 193, 194, 195, 195, 196, 197, 197, 198, 199, 199, 200, 201, 201][i]
  }

  function Row6(i: nat): (s: nat)
    requires i < 16
    ensures Seeds(i + 160, s)
  {
    [202, 203, 203, 204, 204, 205, 206, 206, 207, 208, 208, 209, 209, 210, 211, 211][i]
  }

  function Row7(i: nat): (s: nat)
    requires i < 16
    ensures Seeds(i + 176, s)
  {
    [212, 212, 213, 214, 214, 215, 215, 216, 217, 217, 218, 218, 219, 219, 220, 221][i]
  }

  function Row8(i: nat): (s: nat)
    requires i < 16
    ensures Seeds(i + 192, s)
  {
    [221, 222, 222, 223, 224, 224, 225, 225, 226, 226, 227, 227, 228, 229, 229, 230][i]
  }

  function Row9(i: nat): (s: nat)
    requires i < 16
    ensures Seeds(i + 208, s)
  {
    [230, 231, 231, 232, 232, 233, 234, 234, 235, 235, 236, 236, 237, 237, 238, 238][i]
  }

  function Row10(i: nat): (s: nat)
    requires i < 16
    ensures Seeds(i + 224, s)
  {
    [239, 240, 240, 241, 241, 242, 242, 243, 243, 244, 244, 245, 245, 246, 246, 247][i]
  }

  function Row11(i: nat): (s: nat)
    requires i < 16
    ensures Seeds(i + 240, s)
  {
    [247, 248, 248, 249, 249, 250, 250, 251, 251, 252, 252, 253, 253, 254, 254, 255][i]
  }

  /** sqrt_table[t - 64] */
  function Seed(t: nat): (s: nat)
    requires 64 <= t < 256
    ensures Seeds(t, s)
  {
    if t < 80 then Row0(t - 64)
    else if t < 96 then Row1(t - 80)
    else if t < 112 then Row2(t - 96)
    else if t < 128 then Row3(t - 112)
    else if t < 144 then Row4(t - 128)
    else if t < 160 then Row5(t - 144)
    else if t < 176 then Row6(t - 160)
    else if t < 192 then Row7(t - 176)
    else if t < 208 then Row8(t - 192)
    else if t < 224 then Row9(t - 208)
    else if t < 240 then Row10(t - 224)
    else Row11(t - 240)
  }
}
