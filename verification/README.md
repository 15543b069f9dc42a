# Vulkan version packing

A Dafny model of the version-number encoder of the `glfw` crate
(`crates/glfw/src/lib.rs`). It covers two macros and one constant:

- `VK_MAKE_VERSION!(major, minor, patch)` packs a version into one `u32`.
  It computes `((major as u32) << 22) | ((minor as u32) << 12) | (patch as u32)`.
- `VK_MAKE_API_VERSION!(variant, major, minor, patch)` does the same and
  also ors in `(variant as u32) << 29`.
- `VK_API_VERSION_1_0` is `VK_MAKE_API_VERSION!(0, 1, 0, 0)`.

The layout is the one in the "Version Numbers" section of the Fundamentals
chapter of the Vulkan API specification:

| field | bits | width |
|---|---|---|
| variant | 29-31 | 3 |
| major | 22-28 | 7 |
| minor | 12-21 | 10 |
| patch | 0-11 | 12 |

The macros neither mask nor range-check any field. A field that is too wide
lands in the bits of the field above it. The model keeps this behaviour and
proves what it leads to.

The project has two modules:

- `U32Bits` (`u32_bits.dfy`) models the Rust `u32` operations the macros
  use, over `nat` with every discarded bit written out:
  - `as u32` from an integer of any width is reduction modulo 2^32;
  - `<<` multiplies by a power of two and reduces modulo 2^32;
  - `|` is defined in base two.

  Each operator is tied to its bit-level meaning by a lemma. The module
  also models `>>` and `&`, with `ShrBit` and `AndBit` giving their bit
  meaning. The read-back below uses them; the macros do not.
- `VkVersion` (`vk_version.dfy`) models the macros and the constant. The
  macro arguments are `int`, so any integer argument type, signed or wider
  than 32 bits, goes through the same truncating cast.

The read-back lemmas check the macros against their inverse, `Unpack`: the
field extraction the Vulkan specification defines beside the packing
macros:

- `v >> 29` for the variant;
- `(v >> 22) & 0x7F` for the major;
- `(v >> 12) & 0x3FF` for the minor;
- `v & 0xFFF` for the patch.

The crate does not define these extraction macros; the model uses `Unpack`
only to state the read-back properties. `Pack` applies
`VK_MAKE_API_VERSION` to a `Version` record, and `Weighted` is the plain
weighted sum of the fields.

## Model

| member | source | states |
|---|---|---|
| U32Bits.AsU32 | crates/glfw/src/lib.rs:10 | `x as u32` is below 2^32 and congruent to x modulo 2^32, i.e. two's-complement truncation of any integer |
| U32Bits.ShlBit | crates/glfw/src/lib.rs:10 | bit i of `x << k` on `u32` is bit i-k of x when k <= i < 32, and clear otherwise; bits moved past bit 31 are lost |
| U32Bits.OrBit | crates/glfw/src/lib.rs:10 | bit i of `a \| b` is set exactly when bit i of a or bit i of b is set |
| U32Bits.OrShifted | crates/glfw/src/lib.rs:10 | or-ing a value shifted left by k with a value below 2^k gives their sum, because the bit ranges are disjoint |
| VkVersion.MakeVersion | crates/glfw/src/lib.rs:8-11 | `VK_MAKE_VERSION` yields a `u32`: the result is below 2^32 for every argument |
| VkVersion.MakeApiVersion | crates/glfw/src/lib.rs:15-21 | `VK_MAKE_API_VERSION` yields a `u32`: the result is below 2^32 for every argument |
| VkVersion.MakeVersionBits | crates/glfw/src/lib.rs:8-11 | for every argument, bit i of `VK_MAKE_VERSION` is set exactly when the cast patch sets bit i, or the cast minor sets bit i-12 (i in 12-31), or the cast major sets bit i-22 (i in 22-31) |
| VkVersion.MakeApiVersionBits | crates/glfw/src/lib.rs:15-21 | for every argument, the bits of `VK_MAKE_API_VERSION` are the union of the cast patch, minor at 12, major at 22 and variant at 29, cut at bit 31 |
| VkVersion.ApiVersionVariantZero | crates/glfw/src/lib.rs:10 | `VK_MAKE_API_VERSION!(0, M, m, p)` equals `VK_MAKE_VERSION!(M, m, p)` for every argument |
| VkVersion.PackIsSum | crates/glfw/src/lib.rs:17-20 | with variant < 8, major < 128, minor < 1024 and patch < 4096, the or of the shifted fields equals their weighted sum |
| VkVersion.MakeVersionIsSum | crates/glfw/src/lib.rs:10 | with major < 1024, minor < 1024 and patch < 4096, `VK_MAKE_VERSION` is major·2^22 + minor·2^12 + patch |
| VkVersion.UnpackPack | crates/glfw/src/lib.rs:17-20 | read-back: an in-range version is recovered field by field from its packed value |
| VkVersion.UnpackPackIff | crates/glfw/src/lib.rs:17-20 | a version is recovered from its packed value exactly when every field is in range |
| VkVersion.PackUnpack | crates/glfw/src/lib.rs:17-20 | every `u32` is the packing of the four fields read out of it |
| VkVersion.PackOrder | crates/glfw/src/lib.rs:17-20 | for in-range versions, packed values compare as unsigned integers exactly as (variant, major, minor, patch) compare lexicographically, and they are equal exactly when the versions are |
| VkVersion.MajorSpillsIntoVariant | crates/glfw/src/lib.rs:10 | with minor < 1024 and patch < 4096, an unmasked major of 128 to 1023 given to `VK_MAKE_VERSION` reads back as variant major/128 and major major mod 128 |
| VkVersion.PatchSpillsIntoMinor | crates/glfw/src/lib.rs:10 | with a zero minor, major < 128 and a patch below 2^22, an unmasked patch of 4096 or more reads back as minor patch/4096 and patch patch mod 4096 (with a nonzero minor or a wider patch the spilled bits are or-ed into the fields above, as MakeVersionBits states) |
| VkVersion.MinorSpillsIntoMajor | crates/glfw/src/lib.rs:10 | with a zero major, patch < 4096 and a minor below 2^17, an unmasked minor of 1024 or more reads back as major minor/1024 and minor minor mod 1024 (with a nonzero major or a wider minor the spilled bits are or-ed into the fields above, as MakeVersionBits states) |
| VkVersion.VariantKeepsLowThreeBits | crates/glfw/src/lib.rs:17 | only the low three bits of the cast variant survive the shift by 29 |
| VkVersion.PatchPassedUnmasked | crates/glfw/src/lib.rs:10 | with zero major and minor the result is the cast patch itself, so a patch of -1 sets all 32 bits |
| VkVersion.SpillCollisions | crates/glfw/src/lib.rs:10 | distinct arguments that pack to the same value: (1, 0, 4096) and (1, 1, 0); (0, 1024, 0) and (1, 0, 0); API (0, 128, 0, 0) and (1, 0, 0, 0); API (8, 1, 0, 0) and (0, 1, 0, 0) |
| VkVersion.ApiVersion10Value | crates/glfw/src/lib.rs:24 | `VK_API_VERSION_1_0` is `1 << 22` = 0x0040_0000 and reads back as variant 0, version 1.0.0 |

## Left out

- The `include!` of the generated `bindings.rs` (`crates/glfw/src/lib.rs:5`) is not part of this model. It holds bindgen output: foreign function declarations whose behaviour lives in the C library.
- `crates/glfw/src/consts.rs` is not part of this model. It is a table of GLFW constants with no operations.
- `crates/glfw/src/types.rs` is not part of this model. It holds `extern "C"` callback types and FFI structs.
- `crates/shaders/src/lib.rs` and `crates/shared/src/lib.rs` are not part of this model. They are GPU shader entry points and a vertex layout over floating-point vectors.
- `crates/vk-triangle` is not part of this model:
  - `vulkan_app.rs` has only empty steps;
  - `main.rs` is process wiring and exit codes;
  - `result.rs` is an error wrapper;
  - the two `build.rs` files are build-time plumbing.
- There is no device, swapchain or frame logic in the crate, so none is modelled.
- Arguments of floating-point type are not modelled. A float `as u32` saturates rather than wraps, and the macros are used only with integers.
- Rust macros work on expressions, so an argument expression is evaluated once at its place in the expansion. The model takes argument values, which is the same for side-effect-free arguments.
