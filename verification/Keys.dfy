/** The register keys of the disassembler that the engine knows by name. A key is a number; here it is the
    position of the name in the engine's list of all keys (src/state_runt.c:21-74). */
module Keys {
  type Key = nat

  const AL: Key := 2
  const AH: Key := 1
  const AX: Key := 3
  const EAX: Key := 19
  const RAX: Key := 35

  const BL: Key := 5
  const BH: Key := 4
  const BX: Key := 8
  const EBX: Key := 21
  const RBX: Key := 37

  const CL: Key := 10
  const CH: Key := 9
  const CX: Key := 12
  const ECX: Key := 22
  const RCX: Key := 38

  const DL: Key := 16
  const DH: Key := 13
  const DX: Key := 18
  const EDX: Key := 24
  const RDX: Key := 40

  const DIL: Key := 15
  const DI: Key := 14
  const EDI: Key := 23
  const RDI: Key := 39

  const SIL: Key := 46
  const SI: Key := 45
  const ESI: Key := 29
  const RSI: Key := 43

  const BPL: Key := 7
  const BP: Key := 6
  const EBP: Key := 20
  const RBP: Key := 36

  const SPL: Key := 48
  const SP: Key := 47
  const ESP: Key := 30
  const RSP: Key := 44

  const R8B: Key := 218
  const R8W: Key := 234
  const R8D: Key := 226
  const R8: Key := 106

  const R9B: Key := 219
  const R9W: Key := 235
  const R9D: Key := 227
  const R9: Key := 107

  const R10B: Key := 220
  const R10W: Key := 236
  const R10D: Key := 228
  const R10: Key := 108

  const R11B: Key := 221
  const R11W: Key := 237
  const R11D: Key := 229
  const R11: Key := 109

  const R12B: Key := 222
  const R12W: Key := 238
  const R12D: Key := 230
  const R12: Key := 110

  const R13B: Key := 223
  const R13W: Key := 239
  const R13D: Key := 231
  const R13: Key := 111

  const R14B: Key := 224
  const R14W: Key := 240
  const R14D: Key := 232
  const R14: Key := 112

  const R15B: Key := 225
  const R15W: Key := 241
  const R15D: Key := 233
  const R15: Key := 113

  const EFLAGS: Key := 25

  const EIP: Key := 26
  const RIP: Key := 41
}
