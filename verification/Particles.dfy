/** The three kinds of bit atoms. */
module Particles {
  datatype Particle = Proton | Neutron | Electron
}
