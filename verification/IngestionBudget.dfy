/** The aggregate entry and byte budget of package ingestion. Counters are 64-bit. */
module IngestionBudget {
  import opened Numbers
  import opened Outcomes

  const U64_MAX: nat := 0xFFFF_FFFF_FFFF_FFFF

  datatype Resource = ArtifactBytes | EntryCount | TotalBytes

  datatype LimitError = IngestionLimit(resource: Resource, limit: nat)

  datatype Policy = Policy(maxEntries: nat, maxBytes: nat)

  /** The byte cap of one read and the budget it reports when exceeded. */
  datatype ReadCap = ReadCap(limit: nat, resource: Resource, reportedLimit: nat)

  function CheckedAdd(a: nat, b: nat): Option<nat> {
    if a + b <= U64_MAX then Some(a + b) else None
  }

  class PackageIngestionBudget {
    const policy: Policy
    var entries: nat
    var bytes: nat

    constructor (policy: Policy)
      requires policy.maxEntries <= U64_MAX && policy.maxBytes <= U64_MAX
      ensures this.policy == policy && entries == 0 && bytes == 0 && Valid()
    {
      this.policy := policy;
      entries, bytes := 0, 0;
    }

    /** Counters stay within the policy. */
    predicate Valid()
      reads this
    {
      entries <= policy.maxEntries <= U64_MAX && bytes <= policy.maxBytes <= U64_MAX
    }

    function RemainingEntries(): (r: nat)
      requires Valid()
      reads this
      ensures entries + r == policy.maxEntries
    {
      SaturatingSub(policy.maxEntries, entries)
    }

    function RemainingBytes(): (r: nat)
      requires Valid()
      reads this
      ensures bytes + r == policy.maxBytes
    {
      SaturatingSub(policy.maxBytes, bytes)
    }

    /** The smaller of the per-file limit and the remaining budget. */
    function Cap(perFile: nat): (cap: ReadCap)
      requires Valid()
      reads this
      ensures cap.limit <= perFile && bytes + cap.limit <= policy.maxBytes
      ensures cap.limit == perFile || bytes + cap.limit == policy.maxBytes
      ensures cap.resource == TotalBytes ==> cap.reportedLimit == policy.maxBytes && cap.limit < perFile
      ensures cap.resource == ArtifactBytes ==> cap.reportedLimit == perFile == cap.limit
    {
      if perFile <= RemainingBytes() then ReadCap(perFile, ArtifactBytes, perFile)
      else ReadCap(RemainingBytes(), TotalBytes, policy.maxBytes)
    }

    method AccountEntry() returns (r: Option<LimitError>)
      requires Valid()
      modifies this
      ensures Valid() && bytes == old(bytes)
      ensures r.None? <==> old(entries) < policy.maxEntries
      ensures entries == if r.None? then old(entries) + 1 else old(entries)
      ensures r.Some? ==> r.value == IngestionLimit(EntryCount, policy.maxEntries)
    {
      if entries >= policy.maxEntries {
        return Some(IngestionLimit(EntryCount, policy.maxEntries));
      }
      match CheckedAdd(entries, 1)
      case None => return Some(IngestionLimit(EntryCount, policy.maxEntries));
      case Some(total) =>
        entries := total;
        r := None;
    }

    method AccountBytes(size: nat) returns (r: Option<LimitError>)
      requires Valid() && size <= U64_MAX
      modifies this
      ensures Valid() && entries == old(entries)
      ensures r.None? <==> old(bytes) + size <= policy.maxBytes
      ensures bytes == if r.None? then old(bytes) + size else old(bytes)
      ensures r.Some? ==> r.value == IngestionLimit(TotalBytes, policy.maxBytes)
    {
      match CheckedAdd(bytes, size)
      case None => return Some(IngestionLimit(TotalBytes, policy.maxBytes));
      case Some(total) =>
        if total > policy.maxBytes {
          return Some(IngestionLimit(TotalBytes, policy.maxBytes));
        }
        bytes := total;
        r := None;
    }

    /** Charge a hashed source tree, or nothing at all. */
    method AccountSourceTree(treeEntries: nat, treeBytes: nat) returns (r: Option<LimitError>)
      requires Valid() && treeEntries <= U64_MAX && treeBytes <= U64_MAX
      modifies this
      ensures Valid()
      ensures r.None? <==> old(entries) + treeEntries <= policy.maxEntries && old(bytes) + treeBytes <= policy.maxBytes
      ensures r.None? ==> entries == old(entries) + treeEntries && bytes == old(bytes) + treeBytes
      ensures r.Some? ==> entries == old(entries) && bytes == old(bytes)
      ensures r.Some? ==>
        r.value == if old(entries) + treeEntries > policy.maxEntries then IngestionLimit(EntryCount, policy.maxEntries)
                   else IngestionLimit(TotalBytes, policy.maxBytes)
    {
      match CheckedAdd(entries, treeEntries)
      case None => return Some(IngestionLimit(EntryCount, policy.maxEntries));
      case Some(total) =>
        if total > policy.maxEntries {
          return Some(IngestionLimit(EntryCount, policy.maxEntries));
        }
        r := AccountBytes(treeBytes);
        if r.None? {
          entries := total;
        }
    }

    /** Read one artifact of `size` bytes under its per-file limit. Once the read
        succeeds, charging it cannot fail. */
    method Read(size: nat, perFile: nat) returns (r: Option<LimitError>)
      requires Valid() && size <= U64_MAX
      modifies this
      ensures Valid()
      ensures r.None? <==> old(entries) < policy.maxEntries && size <= perFile && old(bytes) + size <= policy.maxBytes
      ensures r.None? ==> entries == old(entries) + 1 && bytes == old(bytes) + size
      ensures r.Some? ==> entries == old(entries) && bytes == old(bytes)
      ensures r.Some? ==>
        r.value == if old(entries) == policy.maxEntries then IngestionLimit(EntryCount, policy.maxEntries)
                   else if old(bytes) + perFile <= policy.maxBytes then IngestionLimit(ArtifactBytes, perFile)
                   else IngestionLimit(TotalBytes, policy.maxBytes)
    {
      if RemainingEntries() == 0 {
        return Some(IngestionLimit(EntryCount, policy.maxEntries));
      }
      var cap := Cap(perFile);
      if size > cap.limit {
        return Some(IngestionLimit(cap.resource, cap.reportedLimit));
      }
      r := AccountEntry();
      if r.None? {
        r := AccountBytes(size);
      }
    }
  }
}
