/** Permission bits of an inode and the access test (fs.h:45-55, fs_operations.c:233-240). */
module Permissions {
  import opened FsTypes

  const PermNone: bv32 := 0
  const PermExec: bv32 := 1
  const PermWrite: bv32 := 2
  const PermRead: bv32 := 4
  const PermRx: bv32 := PermRead | PermExec
  const PermRwx: bv32 := PermRead | PermWrite | PermExec
  const PermAll: bv32 := (PermRwx << 3) | PermRwx

  /** The permissions every created directory and file receives: rwxr-xr-x. */
  const DefaultPermissions: bv32 := (PermRwx << 6) | (PermRx << 3) | PermRx

  /** Bits 3-5 (the group triplet), which no access test reads. */
  const GroupBits: bv32 := 0x38

  /** The owner triplet sits in bits 6-8, the triplet for everyone else in bits 0-2. */
  function ClassShift(ownerUid: uint32, uid: uint32): (s: nat)
    ensures s == 6 || s == 0
    ensures s == 6 <==> ownerUid == uid
  {
    if ownerUid == uid then 6 else 0
  }

  /** The inode's permissions grant the single permission bit to the class at that shift. */
  predicate Granted(permissions: bv32, shift: nat, bit: bv32)
    requires shift <= 6
  {
    permissions & (bit << shift) != 0
  }

  /** hasPermission: the requested bits that the caller's triplet grants; nonzero means allowed. */
  function HasPermission(permissions: bv32, ownerUid: uint32, uid: uint32, perm: bv32): (r: bv32)
    // only requested bits, and only read/write/execute bits, are ever reported
    ensures r & !perm == 0
    ensures r & !PermRwx == 0
    // each of the three bits is reported exactly when it is requested and granted to the class
    ensures (r & PermRead != 0) == (perm & PermRead != 0 && Granted(permissions, ClassShift(ownerUid, uid), PermRead))
    ensures (r & PermWrite != 0) == (perm & PermWrite != 0 && Granted(permissions, ClassShift(ownerUid, uid), PermWrite))
    ensures (r & PermExec != 0) == (perm & PermExec != 0 && Granted(permissions, ClassShift(ownerUid, uid), PermExec))
  {
    if ownerUid == uid then ((permissions >> 6) & PermRwx) & perm
    else (permissions & PermRwx) & perm
  }

  /** The group triplet is never consulted: clearing it changes no answer. */
  lemma GroupBitsIgnored(permissions: bv32, ownerUid: uint32, uid: uint32, perm: bv32)
    ensures HasPermission(permissions & !GroupBits, ownerUid, uid, perm) == HasPermission(permissions, ownerUid, uid, perm)
  {
  }

  /** The test succeeds as soon as ANY requested bit is granted: asking for read and execute
      when only read is granted is allowed. */
  lemma AnyRequestedBitSuffices(permissions: bv32, ownerUid: uint32, uid: uint32, perm: bv32)
    ensures HasPermission(permissions, ownerUid, uid, perm) != 0 <==>
      (|| (perm & PermRead != 0 && Granted(permissions, ClassShift(ownerUid, uid), PermRead))
       || (perm & PermWrite != 0 && Granted(permissions, ClassShift(ownerUid, uid), PermWrite))
       || (perm & PermExec != 0 && Granted(permissions, ClassShift(ownerUid, uid), PermExec)))
  {
    var r := HasPermission(permissions, ownerUid, uid, perm);
    assert r == (r & PermRead) | (r & PermWrite) | (r & PermExec);
  }

  /** The default rwxr-xr-x lets the owner read, write and execute, and everyone else read and
      execute but not write. */
  lemma DefaultPermissionsGrant(ownerUid: uint32, uid: uint32)
    ensures HasPermission(DefaultPermissions, ownerUid, uid, PermRead) != 0
    ensures HasPermission(DefaultPermissions, ownerUid, uid, PermExec) != 0
    ensures HasPermission(DefaultPermissions, ownerUid, uid, PermWrite) != 0 <==> ownerUid == uid
  {
  }
}
