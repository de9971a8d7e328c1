/** Programs, each identified by a number that stands for its address. */
module Programs {
  type Program = nat
}
