/**
 * The delete-partition dialog: deleting a system or boot partition needs the
 * explicit override; the warning shown depends only on that kind of
 * partition.
 */
module DeleteDialog {
  const BootWarning: string :=
    "WARNING: This partition is marked as bootable or active. Deleting it may make the system unbootable."
  const PermanentWarning: string := "This action is permanent and cannot be undone."

  class DeletePartitionViewModel {
    const partitionDescription: string
    const isSystemOrBoot: bool
    var forceOverride: bool
    var confirmed: bool

    constructor(partitionDescription: string, isSystemOrBoot: bool)
      ensures this.partitionDescription == partitionDescription
      ensures this.isSystemOrBoot == isSystemOrBoot
      ensures !forceOverride && !confirmed
      ensures CanConfirm() <==> !isSystemOrBoot
    {
      this.partitionDescription := partitionDescription;
      this.isSystemOrBoot := isSystemOrBoot;
      forceOverride := false;
      confirmed := false;
    }

    /** The boot warning exactly for system or boot partitions, the permanence warning otherwise. */
    function WarningMessage(): (w: string)
      ensures w == BootWarning <==> isSystemOrBoot
      ensures w == PermanentWarning <==> !isSystemOrBoot
    {
      if isSystemOrBoot then BootWarning else PermanentWarning
    }

    /** Only a system or boot partition without the override blocks the confirmation. */
    predicate CanConfirm()
      reads this
      ensures !CanConfirm() <==> isSystemOrBoot && !forceOverride
      ensures !isSystemOrBoot ==> CanConfirm()
    {
      !isSystemOrBoot || forceOverride
    }

    method SetForceOverride(value: bool)
      modifies this`forceOverride
      ensures forceOverride == value
      ensures CanConfirm() <==> !isSystemOrBoot || value
    {
      forceOverride := value;
    }

    /** Ticking or clearing the confirmation never changes whether the dialog may confirm. */
    method SetConfirmed(value: bool)
      modifies this`confirmed
      ensures confirmed == value
      ensures CanConfirm() == old(CanConfirm())
    {
      confirmed := value;
    }
  }
}
