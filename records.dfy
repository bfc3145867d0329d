/** The two record shapes the issuance flow handles. */
module Records {

  /** The unsigned credential the form builds from its four raw inputs
      (`credential` in `handleSubmit`). */
  datatype Fields = Fields(name: string, degree: string, graduationDate: string, issuer: string)

  /** A signed credential as stored in the credential log (type `Credential`
      of the credential store): the four fields plus the hash and the
      signature of their canonical form. */
  datatype Credential = Credential(
    name: string,
    degree: string,
    graduationDate: string,
    issuer: string,
    hash: string,
    signature: string)
  {
    /** The four fields the hash and the signature were computed over. */
    function Unsigned(): Fields {
      Fields(name, degree, graduationDate, issuer)
    }
  }
}
