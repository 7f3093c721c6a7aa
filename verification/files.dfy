/** A browser `File` as far as the components look at it */
module Files {
  datatype File = File(name: string, size: nat)
}
