/** Library error codes returned by the modelled operations (the PFM_ERR_*
    values of the public libpfm header, which is not part of this model). */
module PfmErrors {

  datatype PfmErr =
    | ErrNotSupp    // PFM_ERR_NOTSUPP: feature or event not supported
    | ErrInval      // PFM_ERR_INVAL: invalid table or argument
    | ErrFeatComb   // PFM_ERR_FEATCOMB: unit masks that cannot be combined
    | ErrAttrVal    // PFM_ERR_ATTR_VAL: attribute value out of range
    | ErrAttrSet    // PFM_ERR_ATTR_SET: attribute already set
    | ErrAttrHw     // PFM_ERR_ATTR_HW: modifier hardwired by a unit mask
    | ErrUmask      // PFM_ERR_UMASK: a unit-mask group has no selection and no default
}
