/** The vocabulary every component shares: machine integers, fixed-width byte
    strings, validators, votes, certificates, blocks, transactions, accounts.

    An address, digest, key or signature is a fixed-width byte string in the
    program. Here it is the number whose big-endian digits are those bytes, so
    that the program's lexicographic `operator<` is `<`. Digests are not bounded
    above: a collision-free hash function can then exist. The wire codecs state
    the widths where they matter. */
module Types {
  const TWO_64: int := 0x1_0000_0000_0000_0000

  type u64 = x: int | 0 <= x < TWO_64
  type u32 = x: int | 0 <= x < 0x1_0000_0000

  type Address = nat
  type ValidatorId = nat
  type Hash = nat
  type PublicKey = nat
  type Signature = nat

  /** Unsigned 64-bit arithmetic wraps around. */
  function Wrap(x: int): (r: u64)
    ensures 0 <= x < TWO_64 ==> r == x
    ensures TWO_64 <= x < 2 * TWO_64 ==> r == x - TWO_64
  {
    x % TWO_64
  }

  datatype Option<+T> = None | Some(value: T)

  datatype Result<+T> = Ok(value: T) | Err

  datatype ValidatorStatus = Active | Standby | Jailed | Tombstoned

  datatype Validator = Validator(
    id: ValidatorId,
    consensusKey: PublicKey,
    withdrawalKey: PublicKey,
    stake: u64,
    status: ValidatorStatus,
    jailedUntil: u64,
    downtimeEpochs: u64,
    signed: u64,
    missed: u64)

  datatype ValidatorSet = ValidatorSet(
    epoch: u64,
    validators: seq<Validator>,
    totalStake: u64,
    merkleRoot: Hash)

  datatype Vote = Vote(
    validator: ValidatorId,
    height: u64,
    hash: Hash,
    view: u64,
    signature: Signature)

  datatype QuorumCertificate = QuorumCertificate(
    height: u64,
    hash: Hash,
    view: u64,
    signature: Signature,
    signers: seq<ValidatorId>,
    stakeSigned: u64)

  datatype BlockHeader = BlockHeader(
    height: u64,
    timestamp: u64,
    previousHash: Hash,
    stateRoot: Hash,
    transactionsRoot: Hash,
    validatorSetRoot: Hash,
    proposer: ValidatorId,
    epoch: u64)

  datatype Transaction = Transaction(
    from: Address,
    to: Address,
    amount: u64,
    nonce: u64,
    fee: u64,
    gasLimit: u64,
    chainId: u32,
    signature: Signature)

  datatype Block = Block(
    header: BlockHeader,
    transactions: seq<Transaction>,
    justify: QuorumCertificate)

  datatype Account = Account(address: Address, balance: u64, nonce: u64, codeHash: Hash)

  datatype VestingSchedule = VestingSchedule(total: u64, vested: u64, start: u64, duration: u64)

  datatype GenesisAllocation = GenesisAllocation(
    address: Address,
    amount: u64,
    category: string,
    vesting: Option<VestingSchedule>)
}
