/** Datatypes shared by the parser, the hardness resolver and the secret
    acquisition: the subcommand and hardness enumerations of invocation.h and
    the value of one invocation record at a given moment. */
module Types {

  datatype Option<+T> = None | Some(value: T)

  /** `subcommand_t`; `Unknown` is the enumeration's extra member. */
  datatype Subcommand = Unknown | Help | Version | Enrol | Generate | Enumerate

  /** `kdf_hardness_t`; `Invalid` marks a `-k` argument whose first letter is
      not l, m or h. */
  datatype KdfHardness = Unspecified | Low | Medium | High | Invalid

  /** The contents of an `invocation_state_t`: each pointer field is `None`
      when NULL, and the passphrase is the C string its buffer holds. */
  datatype Invocation = Invocation(
    subcommand: Subcommand,
    device: Option<string>,
    file: Option<string>,
    passphrase: Option<string>,
    mixin: Option<string>,
    obfuscateDeviceInfo: bool,
    kdfHardness: KdfHardness)

  /** Build-time constants the front end reads but does not define:
      LONGEST_VALID_PASSPHRASE and libsodium's crypto_pwhash_MEMLIMIT_SENSITIVE
      and crypto_pwhash_MEMLIMIT_MODERATE. */
  datatype Limits = Limits(longestPassphrase: nat, memlimitSensitive: nat, memlimitModerate: nat)
}
